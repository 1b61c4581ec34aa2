/**
 * Reading queues for the log. The consumer walks the active queue and, under FSCAN, the passive one when the level is
 * INFO, and looks ahead at the next request, all without the mutex the receiver appends under.
 */
module LogClash {
  import opened Geometry
  import opened Queues
  import opened Taker
  import opened SchedulerRuns

  // ---------- when the two can meet ----------

  predicate IsTrace(r: Request) {
    r.kind == Trace
  }

  predicate NoneTraces(q: seq<Request>) {
    forall i :: 0 <= i < |q| ==> !IsTrace(q[i])
  }

  predicate ReceiverTraceFree(r: Receiver) {
    match r
    case WantsSlot(request) => !IsTrace(request)
    case HasSlot(request) => !IsTrace(request)
    case HasMutex(request) => !IsTrace(request)
    case Chosen(request, _) => !IsTrace(request)
    case _ => true
  }

  predicate PurposeTraceFree(p: Purpose) {
    p.ToLog? ==> !IsTrace(p.request)
  }

  predicate ConsumerTraceFree(c: SchedulerRuns.Consumer) {
    match c
    case Selecting(p) => PurposeTraceFree(p)
    case WantsToggle(p, _) => PurposeTraceFree(p)
    case Toggling(p, _) => PurposeTraceFree(p)
    case Toggled(p, _) => PurposeTraceFree(p)
    case Using(p, _) => PurposeTraceFree(p)
    case Taken(request, _) => !IsTrace(request)
    case Serving(request, _) => !IsTrace(request)
    case WalkingActive(request, _) => !IsTrace(request)
    case WalkingPassive(request, _) => !IsTrace(request)
    case Describing(request) => !IsTrace(request)
    case _ => true
  }

  /** No trace request is anywhere in the server. */
  predicate TraceFree(s: State) {
    NoneTraces(s.first) && NoneTraces(s.second) && ReceiverTraceFree(s.receiver) && ConsumerTraceFree(s.consumer)
  }

  /** The queues are walked only at level INFO, and looked into only for a request that is logged. */
  predicate LogsOnCue(s: State) {
    && (s.consumer.WalkingActive? || s.consumer.WalkingPassive? ==> s.info)
    && (Logs(s.consumer) ==> s.info || !ConsumerTraceFree(s.consumer))
  }

  lemma ReceiverStep(d: Drive, s: State, a: Action)
    requires d.Valid() && Enabled(s, a) && OfReceiver(a) && LogsOnCue(s)
    ensures LogsOnCue(Apply(d, s, a))
    ensures TraceFree(s) && (a.Receive? ==> !IsTrace(a.request)) ==> TraceFree(Apply(d, s, a))
  {
  }

  lemma SelectionStep(d: Drive, s: State, a: Action)
    requires d.Valid() && Enabled(s, a) && OfSelection(a) && LogsOnCue(s)
    ensures LogsOnCue(Apply(d, s, a)) && (TraceFree(s) ==> TraceFree(Apply(d, s, a)))
  {
  }

  lemma TakeStep(d: Drive, s: State)
    requires d.Valid() && Enabled(s, Take) && LogsOnCue(s)
    ensures LogsOnCue(Apply(d, s, Take)) && (TraceFree(s) ==> TraceFree(Apply(d, s, Take)))
  {
  }

  lemma ServiceStep(d: Drive, s: State, a: Action)
    requires d.Valid() && Enabled(s, a) && !OfReceiver(a) && !OfSelection(a) && !a.Take? && LogsOnCue(s)
    ensures LogsOnCue(Apply(d, s, a)) && (TraceFree(s) ==> TraceFree(Apply(d, s, a)))
  {
    hide SetOff, FscanPick, Pick, NoneTraces, RemoveAt;
  }

  lemma ModeKept(d: Drive, s: State, a: Action)
    requires d.Valid() && Enabled(s, a)
    ensures Apply(d, s, a).sstf == s.sstf && Apply(d, s, a).info == s.info
  {
    hide SetOff, FscanPick, Pick, RemoveAt;
  }

  /** A run of a server set up for SSTF or not, and for INFO or not, that is sent trace requests only if `traces`. */
  ghost predicate RunUnder(d: Drive, run: seq<State>, acts: seq<Action>, sstf: bool, info: bool, traces: bool)
    requires d.Valid()
  {
    && IsRun(d, run, acts) && run[0].sstf == sstf && run[0].info == info
    && (!traces ==> forall i :: 0 <= i < |acts| && acts[i].Receive? ==> !IsTrace(acts[i].request))
  }

  lemma {:induction false} CuesKept(d: Drive, run: seq<State>, acts: seq<Action>, sstf: bool, info: bool, traces: bool, i: nat)
    requires d.Valid() && RunUnder(d, run, acts, sstf, info, traces) && i < |run|
    ensures run[i].sstf == sstf && run[i].info == info && LogsOnCue(run[i]) && (!traces ==> TraceFree(run[i]))
  {
    hide LogsOnCue, TraceFree, Apply, Enabled;
    if i == 0 {
      StartsOnCue(run[0]);
    } else {
      var s, a := run[i - 1], acts[i - 1];
      CuesKept(d, run, acts, sstf, info, traces, i - 1);
      assert Enabled(s, a) && run[i] == Apply(d, s, a);
      ModeKept(d, s, a);
      if OfReceiver(a) {
        ReceiverStep(d, s, a);
      } else if OfSelection(a) {
        SelectionStep(d, s, a);
      } else if a.Take? {
        TakeStep(d, s);
      } else {
        ServiceStep(d, s, a);
      }
    }
  }

  lemma StartsOnCue(s: State)
    requires Init(s)
    ensures LogsOnCue(s) && TraceFree(s)
  {
  }

  /** The two meet at a queue only while it is read for the log. */
  lemma ClashOnCue(d: Drive, s: State)
    requires d.Valid() && NoInterference(d, s) && MutualExclusion(s) && LogsOnCue(s) && Clash(s)
    ensures s.info || (s.sstf && !TraceFree(s))
  {
    hide Pick;
  }

  // ---------- the log, one writer at a time ----------

  /** The receiver writes to the log only while the consumer does not. */
  lemma LogHasOneWriter(d: Drive, run: seq<State>, acts: seq<Action>, i: nat)
    requires d.Valid() && IsRun(d, run, acts) && i < |acts| && acts[i].Report?
    ensures !Logs(run[i].consumer)
  {
    assert Enabled(run[i], acts[i]);
  }

  lemma ReportingLasts(d: Drive, s: State, a: Action)
    requires d.Valid() && Enabled(s, a) && s.receiver.Reporting? && !a.Report?
    ensures !a.Receive? && Apply(d, s, a).receiver.Reporting?
  {
    hide SetOff, FscanPick, RemoveAt;
  }

  lemma UnlockReports(d: Drive, s: State)
    requires d.Valid() && Enabled(s, UnlockQueue)
    ensures Apply(d, s, UnlockQueue).receiver == (if s.info then Reporting else Idle)
  {
  }

  lemma {:induction false} StillReporting(d: Drive, run: seq<State>, acts: seq<Action>, i: nat, j: nat)
    requires d.Valid() && IsRun(d, run, acts) && i < j < |run| && acts[i].UnlockQueue? && run[i].info
    requires forall n :: i < n < j ==> !acts[n].Report?
    ensures run[j].receiver.Reporting?
    decreases j - i
  {
    hide Apply, Enabled;
    assert Enabled(run[j - 1], acts[j - 1]) && run[j] == Apply(d, run[j - 1], acts[j - 1]);
    if j == i + 1 {
      UnlockReports(d, run[i]);
    } else {
      StillReporting(d, run, acts, i, j - 1);
      ReportingLasts(d, run[j - 1], acts[j - 1]);
    }
  }

  /** At level INFO the receiver reports each request it has queued before it takes the next one. */
  lemma ReportsBeforeTheNext(d: Drive, run: seq<State>, acts: seq<Action>, i: nat, j: nat) returns (n: nat)
    requires d.Valid() && IsRun(d, run, acts) && i < j < |acts| && run[i].info
    requires acts[i].UnlockQueue? && acts[j].Receive?
    ensures i < n < j && acts[n].Report?
  {
    assert Enabled(run[j], acts[j]);
    if forall n :: i < n < j ==> !acts[n].Report? {
      StillReporting(d, run, acts, i, j);
    }
    n :| i < n < j && acts[n].Report?;
  }

  // ---------- runs in which they do ----------

  /** A run one action longer. */
  lemma Longer(d: Drive, run: seq<State>, acts: seq<Action>, a: Action) returns (r: seq<State>, more: seq<Action>)
    requires d.Valid() && IsRun(d, run, acts) && Enabled(run[|acts|], a)
    ensures IsRun(d, r, more) && r[|more|] == Apply(d, run[|acts|], a) && r[0] == run[0]
    ensures more == acts + [a] && |r| == |more| + 1
  {
    r, more := run + [Apply(d, run[|acts|], a)], acts + [a];
  }

  /** All requests sent are this one. */
  ghost predicate OnlySent(acts: seq<Action>, request: Request) {
    forall i :: 0 <= i < |acts| && acts[i].Receive? ==> acts[i].request == request
  }

  /** The receiver has its next request in hand and its target chosen. */
  lemma Arrives(d: Drive, run: seq<State>, acts: seq<Action>, request: Request) returns (r: seq<State>, more: seq<Action>)
    requires d.Valid() && IsRun(d, run, acts) && OnlySent(acts, request)
    requires var s := run[|acts|]; s.receiver.Idle? && s.mutex == Free && 0 < s.slots
    ensures IsRun(d, r, more) && OnlySent(more, request) && r[0] == run[0]
    ensures var s := run[|acts|];
            r[|more|] == s.(slots := s.slots - 1, mutex := ByReceiver, receiver := Chosen(request, s.Passive()))
  {
    hide IsRun;
    r, more := Longer(d, run, acts, Receive(request));
    r, more := Longer(d, r, more, WaitSlot);
    r, more := Longer(d, r, more, LockQueue);
    r, more := Longer(d, r, more, ChoosePassive);
  }

  /** The receiver takes one request all the way into the queue while the consumer waits. */
  lemma Queued(d: Drive, run: seq<State>, acts: seq<Action>, request: Request) returns (r: seq<State>, more: seq<Action>)
    requires d.Valid() && IsRun(d, run, acts) && OnlySent(acts, request)
    requires var s := run[|acts|]; s.receiver.Idle? && s.consumer.Waiting? && s.mutex == Free && 0 < s.slots
    ensures IsRun(d, r, more) && OnlySent(more, request) && r[0] == run[0]
    ensures var s, e := run[|acts|], request.(arrival := |run[|acts|].arrived|);
            r[|more|] == s.WithQueue(s.Passive(), s.Queue(s.Passive()) + [e]).(
              arrived := s.arrived + [e], slots := s.slots - 1, elems := s.elems + 1)
  {
    hide IsRun;
    r, more := Arrives(d, run, acts, request);
    r, more := Longer(d, r, more, Append);
    r, more := Longer(d, r, more, PostElem);
    r, more := Longer(d, r, more, UnlockQueue);
    if r[|more|].receiver.Reporting? {
      r, more := Longer(d, r, more, Report);
    }
  }

  /** The consumer chooses from the queue it has selected, and takes the request. */
  lemma TakesOne(d: Drive, run: seq<State>, acts: seq<Action>, request: Request) returns (r: seq<State>, more: seq<Action>)
    requires d.Valid() && IsRun(d, run, acts) && OnlySent(acts, request)
    requires var s := run[|acts|];
             && (if s.sstf then s.consumer.Locked? else s.consumer.Using? && s.consumer.purpose == ToServe)
             && s.Queue(s.consumer.source) != []
             && forall i :: 0 <= i < |s.Queue(s.consumer.source)| ==> s.Queue(s.consumer.source)[i].kind == request.kind
    ensures IsRun(d, r, more) && OnlySent(more, request) && r[0] == run[0]
    ensures var s, t := run[|acts|], r[|more|];
            && t.sstf == s.sstf && t.info == s.info && t.receiver == s.receiver && t.slots == s.slots && t.flag == s.flag
            && t.elems == s.elems && t.mutex == (if s.sstf then Free else s.mutex)
            && t.consumer.Serving? && t.consumer.source == s.consumer.source && t.consumer.request.kind == request.kind
  {
    hide IsRun, SetOff, FscanPick;
    r, more := Longer(d, run, acts, Choose);
    r, more := Longer(d, r, more, Take);
    if r[|more|].consumer.Taken? {
      r, more := Longer(d, r, more, UnlockSstf);
    }
  }

  /** Under SSTF the consumer takes a queued request. */
  lemma ServedUnderSstf(d: Drive, run: seq<State>, acts: seq<Action>, request: Request) returns (r: seq<State>, more: seq<Action>)
    requires d.Valid() && IsRun(d, run, acts) && OnlySent(acts, request)
    requires var s := run[|acts|];
             && s.sstf && s.consumer.Waiting? && s.mutex == Free && |s.first| == s.elems > 0
             && forall i :: 0 <= i < |s.first| ==> s.first[i].kind == request.kind
    ensures IsRun(d, r, more) && OnlySent(more, request) && r[0] == run[0]
    ensures var s, t := run[|acts|], r[|more|];
            && t.sstf && t.info == s.info && t.receiver == s.receiver && t.slots == s.slots && t.mutex == Free
            && t.consumer.Serving? && t.consumer.source == First && t.consumer.request.kind == request.kind
            && t.elems == s.elems - 1
  {
    hide IsRun;
    r, more := Longer(d, run, acts, WaitElem);
    r, more := Longer(d, r, more, SelectActive);
    r, more := Longer(d, r, more, LockSstf);
    r, more := TakesOne(d, r, more, request);
  }

  /** Under FSCAN the consumer turns to the queue that has a request and takes it. */
  lemma ServedUnderFscan(d: Drive, run: seq<State>, acts: seq<Action>, request: Request) returns (r: seq<State>, more: seq<Action>)
    requires d.Valid() && IsRun(d, run, acts) && OnlySent(acts, request)
    requires var s := run[|acts|];
             && !s.sstf && s.flag == First && s.consumer.Waiting? && s.mutex == Free && s.first == []
             && |s.second| == s.elems == 1 && s.second[0].kind == request.kind
    ensures IsRun(d, r, more) && OnlySent(more, request) && r[0] == run[0]
    ensures var s, t := run[|acts|], r[|more|];
            && !t.sstf && t.info == s.info && t.receiver == s.receiver && t.slots == s.slots && t.mutex == Free
            && t.consumer.Serving? && t.flag == Second
  {
    hide IsRun;
    r, more := Longer(d, run, acts, WaitElem);
    r, more := Longer(d, r, more, SelectActive);
    r, more := Longer(d, r, more, LockToggle);
    r, more := Longer(d, r, more, ToggleFlag);
    r, more := Longer(d, r, more, UnlockToggle);
    r, more := TakesOne(d, r, more, request);
  }

  lemma Started(d: Drive, start: State, request: Request) returns (run: seq<State>, acts: seq<Action>)
    requires d.Valid() && Init(start)
    ensures IsRun(d, run, acts) && OnlySent(acts, request) && run[0] == start == run[|acts|]
  {
    run, acts := [start], [];
  }

  /** SSTF at level INFO: an arrival while the consumer lists the queue it serves from. */
  lemma ClashUnderSstfInfo(d: Drive, start: State, request: Request) returns (run: seq<State>, acts: seq<Action>)
    requires d.Valid() && Init(start) && start.sstf && start.info
    ensures IsRun(d, run, acts) && OnlySent(acts, request) && run[0] == start && Clash(run[|acts|])
  {
    hide IsRun;
    run, acts := Started(d, start, request);
    run, acts := Queued(d, run, acts, request);
    run, acts := ServedUnderSstf(d, run, acts, request);
    run, acts := Longer(d, run, acts, StartLog);
    run, acts := Arrives(d, run, acts, request);
  }

  /** FSCAN at level INFO: an arrival while the consumer lists the passive queue. */
  lemma ClashUnderFscanInfo(d: Drive, start: State, request: Request) returns (run: seq<State>, acts: seq<Action>)
    requires d.Valid() && Init(start) && !start.sstf && start.info
    ensures IsRun(d, run, acts) && OnlySent(acts, request) && run[0] == start && Clash(run[|acts|])
  {
    hide IsRun;
    run, acts := Started(d, start, request);
    run, acts := Queued(d, run, acts, request);
    run, acts := ServedUnderFscan(d, run, acts, request);
    run, acts := Longer(d, run, acts, StartLog);
    run, acts := Longer(d, run, acts, EndActiveWalk);
    run, acts := Arrives(d, run, acts, request);
  }

  /** SSTF at any other level: an arrival while the consumer looks for the request after a trace. */
  lemma ClashUnderSstfTrace(d: Drive, start: State, request: Request) returns (run: seq<State>, acts: seq<Action>)
    requires d.Valid() && Init(start) && start.sstf && !start.info && IsTrace(request)
    ensures IsRun(d, run, acts) && OnlySent(acts, request) && run[0] == start && Clash(run[|acts|])
  {
    hide IsRun;
    run, acts := Started(d, start, request);
    run, acts := Queued(d, run, acts, request);
    run, acts := Queued(d, run, acts, request);
    run, acts := ServedUnderSstf(d, run, acts, request);
    run, acts := Longer(d, run, acts, StartLog);
    run, acts := Longer(d, run, acts, LookAhead);
    run, acts := Longer(d, run, acts, SelectActive);
    run, acts := Arrives(d, run, acts, request);
  }

  // ---------- exactly when ----------

  /** Some run under this setup comes to a state in which the receiver is about to append to a queue being read. */
  ghost predicate CanClash(d: Drive, sstf: bool, info: bool, traces: bool)
    requires d.Valid()
  {
    exists run, acts :: RunUnder(d, run, acts, sstf, info, traces) && Clash(run[|acts|])
  }

  lemma ClashNeedsCue(d: Drive, run: seq<State>, acts: seq<Action>, sstf: bool, info: bool, traces: bool)
    requires d.Valid() && RunUnder(d, run, acts, sstf, info, traces) && Clash(run[|acts|])
    ensures info || (sstf && traces)
  {
    hide Clash, LogsOnCue, TraceFree;
    EveryStateOfEveryRun(d, run, acts, |acts|);
    CuesKept(d, run, acts, sstf, info, traces, |acts|);
    ClashOnCue(d, run[|acts|]);
  }

  /**
   * The receiver and the consumer can come to be on one queue if and only if the log level is INFO, or the algorithm is
   * SSTF and trace requests are sent.
   */
  lemma ClashPossibleIff(d: Drive, sstf: bool, info: bool, traces: bool)
    requires d.Valid()
    ensures CanClash(d, sstf, info, traces) <==> info || (sstf && traces)
  {
    hide Clash, Init;
    if CanClash(d, sstf, info, traces) {
      var run, acts :| RunUnder(d, run, acts, sstf, info, traces) && Clash(run[|acts|]);
      ClashNeedsCue(d, run, acts, sstf, info, traces);
    }
    if info || (sstf && traces) {
      var run, acts;
      var start := StartOf(sstf, info);
      var request := Request(if info then ReadSectors else Trace, 1, Chs(0, 0, 0), 0, 0);
      if info && sstf {
        run, acts := ClashUnderSstfInfo(d, start, request);
      } else if info {
        run, acts := ClashUnderFscanInfo(d, start, request);
      } else {
        run, acts := ClashUnderSstfTrace(d, start, request);
      }
      assert RunUnder(d, run, acts, sstf, info, traces);
    }
  }

  function StartOf(sstf: bool, info: bool): (s: State)
    ensures Init(s) && s.sstf == sstf && s.info == info
  {
    State(sstf, info, [], [], First, Arm(0, if sstf then Sstf else Up), SLOTS, 0, Free, Idle, Waiting, [], [])
  }
}
