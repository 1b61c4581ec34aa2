/**
 * The producer and the consumer thread of the disk server, one action per semaphore operation or shared access,
 * interleaved in every possible way.
 */
module SchedulerRuns {
  import opened Geometry
  import opened Queues
  import opened Taker
  import opened Hazards

  const SLOTS := 5000

  datatype QueueId = First | Second
  datatype Holder = Free | ByReceiver | ByConsumer

  /** Where the receiver is between reading a message and letting the mutex go. */
  datatype Receiver =
    | Idle
    | WantsSlot(request: Request)
    | HasSlot(request: Request)
    | HasMutex(request: Request)
    | Chosen(request: Request, target: QueueId)
    | Appended
    | Posted
    | Reporting

  /** The active queue is selected to serve from it or, when a served request is logged, to look at the next one. */
  datatype Purpose = ToServe | ToLog(request: Request)

  datatype Consumer =
    | Waiting
    | Selecting(purpose: Purpose)
    | WantsToggle(purpose: Purpose, drained: QueueId)
    | Toggling(purpose: Purpose, drained: QueueId)
    | Toggled(purpose: Purpose, drained: QueueId)
    | Using(purpose: Purpose, source: QueueId)
    | Locked(source: QueueId)
    | Candidate(source: QueueId, index: nat, off: Arm)
    | Taken(request: Request, source: QueueId)
    | Serving(request: Request, source: QueueId)
    | WalkingActive(request: Request, source: QueueId)
    | WalkingPassive(request: Request, target: QueueId)
    | Describing(request: Request)
    | Logged(request: Request)
    | Finished

  /** `info`: the log level is INFO, and both threads write to the log, one at a time. */
  datatype State = State(
    sstf: bool,
    info: bool,
    first: seq<Request>,
    second: seq<Request>,
    flag: QueueId,
    arm: Arm,
    slots: nat,
    elems: nat,
    mutex: Holder,
    receiver: Receiver,
    consumer: Consumer,
    arrived: seq<Request>,
    taken: seq<Request>)
  {
    function Queue(id: QueueId): seq<Request> {
      if id == First then first else second
    }

    function Active(): QueueId {
      if sstf then First else flag
    }

    /** Under SSTF the one queue is both. */
    function Passive(): QueueId {
      if sstf then First else Other(flag)
    }

    function WithQueue(id: QueueId, q: seq<Request>): State {
      if id == First then this.(first := q) else this.(second := q)
    }

    /** All that waits, in arrival order: the active batch, then the passive queue. */
    function Backlog(): seq<Request> {
      if sstf then first else Queue(flag) + Queue(Other(flag))
    }
  }

  function Other(id: QueueId): QueueId {
    if id == First then Second else First
  }

  datatype Action =
    | Receive(request: Request)
    | WaitSlot
    | LockQueue
    | ChoosePassive
    | Append
    | PostElem
    | UnlockQueue
    | WaitElem
    | SelectActive
    | LockToggle
    | ToggleFlag
    | UnlockToggle
    | LockSstf
    | Choose
    | Take
    | UnlockSstf
    | Report
    | StartLog
    | EndActiveWalk
    | EndPassiveWalk
    | LookAhead
    | EndLog
    | Finish
    | PostSlot

  /** A request is logged when the level is INFO, and a trace request always is, in the answer to its sender. */
  predicate IsLogged(s: State, r: Request) {
    s.info || r.kind == Trace
  }

  /** The consumer is writing its part of the log. */
  predicate Logs(c: Consumer) {
    c.WalkingActive? || c.WalkingPassive? || c.Describing? || SelectsToLog(c)
  }

  predicate Enabled(s: State, a: Action) {
    match a
    case Receive(_) => s.receiver.Idle?
    case WaitSlot => s.receiver.WantsSlot? && 0 < s.slots
    case LockQueue => s.receiver.HasSlot? && s.mutex == Free
    case ChoosePassive => s.receiver.HasMutex?
    case Append => s.receiver.Chosen?
    case PostElem => s.receiver.Appended?
    case UnlockQueue => s.receiver.Posted?
    case Report => s.receiver.Reporting? && !Logs(s.consumer)
    case WaitElem => s.consumer.Waiting? && 0 < s.elems
    case SelectActive => s.consumer.Selecting?
    case LockToggle => s.consumer.WantsToggle? && s.mutex == Free
    case ToggleFlag => s.consumer.Toggling?
    case UnlockToggle => s.consumer.Toggled?
    case LockSstf => s.consumer.Using? && s.consumer.purpose == ToServe && s.sstf && s.mutex == Free
    case Choose =>
      && ((s.consumer.Using? && s.consumer.purpose == ToServe && !s.sstf) || s.consumer.Locked?)
      && s.Queue(s.consumer.source) != []
    case Take => s.consumer.Candidate? && s.consumer.index < |s.Queue(s.consumer.source)|
    case UnlockSstf => s.consumer.Taken?
    case StartLog => s.consumer.Serving? && IsLogged(s, s.consumer.request)
    case EndActiveWalk => s.consumer.WalkingActive?
    case EndPassiveWalk => s.consumer.WalkingPassive?
    case LookAhead => s.consumer.Describing?
    case EndLog => s.consumer.Using? && s.consumer.purpose.ToLog?
    case Finish => (s.consumer.Serving? && !IsLogged(s, s.consumer.request)) || s.consumer.Logged?
    case PostSlot => s.consumer.Finished?
  }

  function Apply(d: Drive, s: State, a: Action): State
    requires d.Valid() && Enabled(s, a)
  {
    match a
    case Receive(r) => s.(receiver := WantsSlot(r))
    case WaitSlot => s.(slots := s.slots - 1, receiver := HasSlot(s.receiver.request))
    case LockQueue => s.(mutex := ByReceiver, receiver := HasMutex(s.receiver.request))
    case ChoosePassive => s.(receiver := Chosen(s.receiver.request, s.Passive()))
    case Append =>
      var r := s.receiver.request.(arrival := |s.arrived|);
      var target := s.receiver.target;
      s.WithQueue(target, s.Queue(target) + [r]).(arrived := s.arrived + [r], receiver := Appended)
    case PostElem => s.(elems := s.elems + 1, receiver := Posted)
    case UnlockQueue => s.(mutex := Free, receiver := if s.info then Reporting else Idle)
    case Report => s.(receiver := Idle)
    case WaitElem => s.(elems := s.elems - 1, consumer := Selecting(ToServe))
    case SelectActive =>
      var purpose := s.consumer.purpose;
      if !s.sstf && s.Queue(s.flag) == [] then s.(consumer := WantsToggle(purpose, s.flag))
      else s.(consumer := Using(purpose, s.Active()))
    case LockToggle => s.(mutex := ByConsumer, consumer := Toggling(s.consumer.purpose, s.consumer.drained))
    case ToggleFlag => s.(flag := Other(s.flag), consumer := Toggled(s.consumer.purpose, s.consumer.drained))
    case UnlockToggle => s.(mutex := Free, consumer := Using(s.consumer.purpose, Other(s.consumer.drained)))
    case LockSstf => s.(mutex := ByConsumer, consumer := Locked(s.consumer.source))
    case Choose =>
      var q := s.Queue(s.consumer.source);
      var off := SetOff(d, q, s.arm);
      s.(arm := s.arm.(direction := off.direction),
         consumer := Candidate(s.consumer.source, FscanPick(d, q, s.arm), off))
    case Take =>
      var source, k := s.consumer.source, s.consumer.index;
      var q := s.Queue(source);
      s.WithQueue(source, RemoveAt(q, k)).(
        taken := s.taken + [q[k]],
        consumer := if s.sstf then Taken(q[k], source) else Serving(q[k], source))
    case UnlockSstf => s.(mutex := Free, consumer := Serving(s.consumer.request, s.consumer.source))
    case StartLog =>
      s.(consumer := if s.info then WalkingActive(s.consumer.request, s.consumer.source) else Describing(s.consumer.request))
    case EndActiveWalk =>
      s.(consumer := if s.sstf then Describing(s.consumer.request) else WalkingPassive(s.consumer.request, s.Passive()))
    case EndPassiveWalk => s.(consumer := Describing(s.consumer.request))
    case LookAhead =>
      s.(consumer := if 0 < s.elems then Selecting(ToLog(s.consumer.request)) else Logged(s.consumer.request))
    case EndLog => s.(consumer := Logged(s.consumer.purpose.request))
    case Finish =>
      s.(consumer := Finished,
         arm := s.arm.(position := d.NextHeadPosition(d.ToSectorNum(s.consumer.request.at))))
    case PostSlot => s.(slots := s.slots + 1, consumer := Waiting)
  }

  predicate Init(s: State) {
    && s.first == s.second == s.arrived == s.taken == []
    && (!s.sstf ==> s.flag == First) && s.slots == SLOTS && s.elems == 0 && s.mutex == Free
    && s.receiver == Idle && s.consumer == Waiting
    && (s.sstf <==> s.arm.direction == Sstf)
  }

  /** `run` is a finite execution driven by `acts`. */
  ghost predicate IsRun(d: Drive, run: seq<State>, acts: seq<Action>)
    requires d.Valid()
  {
    && |run| == |acts| + 1 && Init(run[0])
    && forall i :: 0 <= i < |acts| ==> Enabled(run[i], acts[i]) && run[i + 1] == Apply(d, run[i], acts[i])
  }

  // ---------- what holds in every state of every run ----------

  predicate ReceiverInside(r: Receiver) {
    r.HasMutex? || r.Chosen? || r.Appended? || r.Posted?
  }

  predicate ConsumerInside(s: State) {
    s.consumer.Toggling? || s.consumer.Toggled? || s.consumer.Locked? || s.consumer.Taken?
    || (s.sstf && s.consumer.Candidate?)
  }

  predicate MutualExclusion(s: State) {
    && (s.mutex == ByReceiver <==> ReceiverInside(s.receiver))
    && (s.mutex == ByConsumer <==> ConsumerInside(s))
  }

  /** The consumer has taken a token from `queueElemSem` but no request from the queue yet. */
  predicate OwesTake(c: Consumer) {
    match c
    case Selecting(p) => p == ToServe
    case WantsToggle(p, _) => p == ToServe
    case Toggling(p, _) => p == ToServe
    case Toggled(p, _) => p == ToServe
    case Using(p, _) => p == ToServe
    case Locked(_) => true
    case Candidate(_, _, _) => true
    case _ => false
  }

  predicate SelectsToLog(c: Consumer) {
    match c
    case Selecting(p) => p.ToLog?
    case WantsToggle(p, _) => p.ToLog?
    case Toggling(p, _) => p.ToLog?
    case Toggled(p, _) => p.ToLog?
    case Using(p, _) => p.ToLog?
    case _ => false
  }

  /** The consumer holds a request it has unlinked and not yet answered. */
  predicate InService(c: Consumer) {
    c.Taken? || c.Serving? || c.Logged? || c.Finished? || Logs(c)
  }

  predicate SlotHeld(r: Receiver) {
    r.HasSlot? || r.HasMutex? || r.Chosen?
  }

  function Count(b: bool): nat {
    if b then 1 else 0
  }

  /** Free slots, requests held by the receiver, queued and in service add up to the capacity. */
  predicate SlotsConserved(s: State) {
    s.slots + Count(SlotHeld(s.receiver)) + |s.first| + |s.second| + Count(InService(s.consumer)) == 5000
  }

  predicate ElemsCounted(s: State) {
    && |s.first| + |s.second| == s.elems + Count(OwesTake(s.consumer)) + Count(s.receiver.Appended?)
    && (SelectsToLog(s.consumer) ==> 0 < s.elems)
  }

  /** The receiver writes only to the passive queue; the consumer holds only the active one, never empty. */
  predicate NoInterference(d: Drive, s: State)
    requires d.Valid()
  {
    && (s.sstf ==> s.second == [])
    && (s.receiver.Chosen? ==> s.receiver.target == s.Passive())
    && match s.consumer
       case WantsToggle(_, drained) => !s.sstf && drained == s.flag && s.Queue(drained) == []
       case Toggling(_, drained) => !s.sstf && drained == s.flag && s.Queue(drained) == []
       case Toggled(_, drained) => !s.sstf && drained == Other(s.flag) && s.Queue(drained) == []
       case Using(_, source) => source == s.Active() && s.Queue(source) != []
       case Locked(source) => s.sstf && source == s.Active() && s.Queue(source) != []
       case Candidate(source, k, off) =>
         && source == s.Active() && s.Queue(source) != []
         && k == Pick(s.Queue(source), d.ToChs(off.position), off.direction)
       case Taken(_, source) => s.sstf && source == s.Active()
       case Serving(_, source) => source == s.Active()
       case WalkingActive(_, source) => source == s.Active()
       case WalkingPassive(_, target) => !s.sstf && target == s.Passive()
       case _ => true
  }

  /** Every request is waiting or taken, exactly once. */
  ghost predicate NothingLost(s: State) {
    && multiset(s.Backlog()) + multiset(s.taken) == multiset(s.arrived)
    && forall i :: 0 <= i < |s.arrived| ==> s.arrived[i].arrival == i
  }

  ghost predicate OrderSafe(s: State) {
    && InArrivalOrder(s.Backlog())
    && ServedSafely(s.taken)
    && NotOvertaken(s.Backlog(), s.taken)
    && (forall i :: 0 <= i < |s.Backlog()| ==> s.Backlog()[i].arrival < |s.arrived|)
    && (forall i :: 0 <= i < |s.taken| ==> s.taken[i].arrival < |s.arrived|)
  }

  ghost predicate Inv(d: Drive, s: State)
    requires d.Valid()
  {
    MutualExclusion(s) && SlotsConserved(s) && ElemsCounted(s) && NoInterference(d, s) && OrderSafe(s) && NothingLost(s)
  }

  predicate OfReceiver(a: Action) {
    a.Receive? || a.WaitSlot? || a.LockQueue? || a.ChoosePassive? || a.Append? || a.PostElem? || a.UnlockQueue? || a.Report?
  }

  predicate OfSelection(a: Action) {
    a.WaitElem? || a.SelectActive? || a.LockToggle? || a.ToggleFlag? || a.UnlockToggle? || a.LockSstf?
  }

  lemma ReceiverKeepsMutualExclusion(d: Drive, s: State, a: Action)
    requires d.Valid() && Enabled(s, a) && OfReceiver(a) && MutualExclusion(s)
    ensures MutualExclusion(Apply(d, s, a))
  {
  }

  lemma SelectionKeepsMutualExclusion(d: Drive, s: State, a: Action)
    requires d.Valid() && Enabled(s, a) && OfSelection(a) && MutualExclusion(s)
    ensures MutualExclusion(Apply(d, s, a))
  {
  }

  lemma ServiceKeepsMutualExclusion(d: Drive, s: State, a: Action)
    requires d.Valid() && Enabled(s, a) && !OfReceiver(a) && !OfSelection(a) && MutualExclusion(s) && NoInterference(d, s)
    ensures MutualExclusion(Apply(d, s, a))
  {
    hide SetOff, FscanPick, Pick, RemoveAt;
  }

  lemma MutualExclusionKept(d: Drive, s: State, a: Action)
    requires d.Valid() && Enabled(s, a) && MutualExclusion(s) && NoInterference(d, s)
    ensures MutualExclusion(Apply(d, s, a))
  {
    hide Apply, Enabled, MutualExclusion, NoInterference;
    if OfReceiver(a) {
      ReceiverKeepsMutualExclusion(d, s, a);
    } else if OfSelection(a) {
      SelectionKeepsMutualExclusion(d, s, a);
    } else {
      ServiceKeepsMutualExclusion(d, s, a);
    }
  }

  lemma ReceiverKeepsCounts(d: Drive, s: State, a: Action)
    requires d.Valid() && Enabled(s, a) && OfReceiver(a) && SlotsConserved(s) && ElemsCounted(s)
    ensures SlotsConserved(Apply(d, s, a)) && ElemsCounted(Apply(d, s, a))
  {
  }

  lemma ConsumerKeepsSlots(d: Drive, s: State, a: Action)
    requires d.Valid() && Enabled(s, a) && !OfReceiver(a) && SlotsConserved(s)
    ensures SlotsConserved(Apply(d, s, a))
  {
    hide SetOff, FscanPick, Pick, ElemsCounted;
    if OfSelection(a) {
    } else {
    }
  }

  lemma SelectionKeepsElems(d: Drive, s: State, a: Action)
    requires d.Valid() && Enabled(s, a) && OfSelection(a) && ElemsCounted(s)
    ensures ElemsCounted(Apply(d, s, a))
  {
    hide SlotsConserved;
  }

  lemma ServiceKeepsElems(d: Drive, s: State, a: Action)
    requires d.Valid() && Enabled(s, a) && !OfReceiver(a) && !OfSelection(a) && ElemsCounted(s)
    ensures ElemsCounted(Apply(d, s, a))
  {
    hide SetOff, FscanPick, Pick, SlotsConserved;
  }

  lemma CountsKept(d: Drive, s: State, a: Action)
    requires d.Valid() && Enabled(s, a) && SlotsConserved(s) && ElemsCounted(s)
    ensures SlotsConserved(Apply(d, s, a)) && ElemsCounted(Apply(d, s, a))
  {
    hide Apply, Enabled, SlotsConserved, ElemsCounted;
    if OfReceiver(a) {
      ReceiverKeepsCounts(d, s, a);
    } else {
      ConsumerKeepsSlots(d, s, a);
      if OfSelection(a) {
        SelectionKeepsElems(d, s, a);
      } else {
        ServiceKeepsElems(d, s, a);
      }
    }
  }

  lemma ReceiverKeepsNoInterference(d: Drive, s: State, a: Action)
    requires d.Valid() && Enabled(s, a) && OfReceiver(a) && !a.Append? && NoInterference(d, s)
    ensures NoInterference(d, Apply(d, s, a))
  {
    hide SetOff, FscanPick, Pick;
  }

  lemma AppendKeepsNoInterference(d: Drive, s: State)
    requires d.Valid() && Enabled(s, Append) && MutualExclusion(s) && NoInterference(d, s)
    ensures NoInterference(d, Apply(d, s, Append))
  {
    hide SetOff, FscanPick, Pick;
  }

  lemma SelectionKeepsNoInterference(d: Drive, s: State, a: Action)
    requires d.Valid() && Enabled(s, a) && OfSelection(a)
    requires MutualExclusion(s) && ElemsCounted(s) && NoInterference(d, s)
    ensures NoInterference(d, Apply(d, s, a))
  {
    hide SetOff, FscanPick, Pick;
  }

  lemma ChoiceKeepsNoInterference(d: Drive, s: State)
    requires d.Valid() && Enabled(s, Choose) && NoInterference(d, s)
    ensures NoInterference(d, Apply(d, s, Choose))
  {
    hide SetOff, Pick;
  }

  lemma ServiceKeepsNoInterference(d: Drive, s: State, a: Action)
    requires d.Valid() && Enabled(s, a) && !OfReceiver(a) && !OfSelection(a) && !a.Choose?
    requires MutualExclusion(s) && NoInterference(d, s)
    ensures NoInterference(d, Apply(d, s, a))
  {
    hide SetOff, FscanPick, Pick;
  }

  lemma NoInterferenceKept(d: Drive, s: State, a: Action)
    requires d.Valid() && Enabled(s, a)
    requires MutualExclusion(s) && ElemsCounted(s) && NoInterference(d, s)
    ensures NoInterference(d, Apply(d, s, a))
  {
    hide Apply, Enabled, MutualExclusion, ElemsCounted, NoInterference;
    if a.Append? {
      AppendKeepsNoInterference(d, s);
    } else if OfReceiver(a) {
      ReceiverKeepsNoInterference(d, s, a);
    } else if OfSelection(a) {
      SelectionKeepsNoInterference(d, s, a);
    } else if a.Choose? {
      ChoiceKeepsNoInterference(d, s);
    } else {
      ServiceKeepsNoInterference(d, s, a);
    }
  }

  predicate MovesBacklog(a: Action) {
    a.Append? || a.Take? || a.ToggleFlag?
  }

  lemma OtherActionsKeepBacklog(d: Drive, s: State, a: Action)
    requires d.Valid() && Enabled(s, a) && !MovesBacklog(a)
    ensures var t := Apply(d, s, a);
            t.Backlog() == s.Backlog() && t.taken == s.taken && t.arrived == s.arrived
  {
    hide SetOff, FscanPick, Pick;
  }

  lemma ToggleKeepsBacklog(d: Drive, s: State)
    requires d.Valid() && Enabled(s, ToggleFlag) && NoInterference(d, s)
    ensures var t := Apply(d, s, ToggleFlag);
            t.Backlog() == s.Backlog() && t.taken == s.taken && t.arrived == s.arrived
  {
  }

  lemma AppendGoesLast(d: Drive, s: State)
    requires d.Valid() && Enabled(s, Append) && NoInterference(d, s)
    ensures var t := Apply(d, s, Append);
            var r := s.receiver.request.(arrival := |s.arrived|);
            t.Backlog() == s.Backlog() + [r] && t.arrived == s.arrived + [r] && t.taken == s.taken
  {
  }

  lemma HazardFreeInFront(q: seq<Request>, behind: seq<Request>, k: nat)
    requires HazardFree(q, k)
    ensures HazardFree(q + behind, k) && (q + behind)[k] == q[k]
    ensures RemoveAt(q + behind, k) == RemoveAt(q, k) + behind
    ensures q + [] == q
  {
  }

  lemma TakeIsHazardFree(d: Drive, s: State)
    requires d.Valid() && Enabled(s, Take) && NoInterference(d, s)
    ensures var t, k := Apply(d, s, Take), s.consumer.index;
            && HazardFree(s.Backlog(), k) && t.Backlog() == RemoveAt(s.Backlog(), k)
            && t.taken == s.taken + [s.Backlog()[k]] && t.arrived == s.arrived
  {
    var q, k := s.Queue(s.consumer.source), s.consumer.index;
    PickIsHazardFree(q, d.ToChs(s.consumer.off.position), s.consumer.off.direction);
    HazardFreeInFront(q, if s.sstf then [] else s.Queue(Other(s.flag)), k);
  }

  /**
   * Seen from outside, the backlog is one queue in arrival order: an action leaves it alone, appends the newest
   * request, or serves a position no earlier conflicting write stands in front of.
   */
  ghost predicate BacklogMoves(s: State, t: State) {
    || (t.Backlog() == s.Backlog() && t.taken == s.taken && t.arrived == s.arrived)
    || (exists r: Request ::
          && r.arrival == |s.arrived| && t.arrived == s.arrived + [r]
          && t.Backlog() == s.Backlog() + [r] && t.taken == s.taken)
    || (exists k: nat ::
          && HazardFree(s.Backlog(), k) && t.Backlog() == RemoveAt(s.Backlog(), k)
          && t.taken == s.taken + [s.Backlog()[k]] && t.arrived == s.arrived)
  }

  lemma BacklogStep(d: Drive, s: State, a: Action)
    requires d.Valid() && Enabled(s, a) && NoInterference(d, s)
    ensures BacklogMoves(s, Apply(d, s, a))
  {
    if a.Append? {
      AppendGoesLast(d, s);
      var r := s.receiver.request.(arrival := |s.arrived|);
      assert r.arrival == |s.arrived|;
    } else if a.Take? {
      TakeIsHazardFree(d, s);
    } else if a.ToggleFlag? {
      ToggleKeepsBacklog(d, s);
    } else {
      OtherActionsKeepBacklog(d, s, a);
    }
  }

  lemma ArrivalKeepsOrder(s: State, t: State, r: Request)
    requires OrderSafe(s) && NothingLost(s)
    requires r.arrival == |s.arrived| && t.arrived == s.arrived + [r]
    requires t.Backlog() == s.Backlog() + [r] && t.taken == s.taken
    ensures OrderSafe(t) && NothingLost(t)
  {
    QueuingKeepsOrderSafe(s.Backlog(), s.taken, r);
  }

  lemma ServiceKeepsOrder(s: State, t: State, k: nat)
    requires OrderSafe(s) && HazardFree(s.Backlog(), k) && t.Backlog() == RemoveAt(s.Backlog(), k)
    requires t.taken == s.taken + [s.Backlog()[k]] && t.arrived == s.arrived
    ensures OrderSafe(t)
  {
    ServingKeepsOrderSafe(s.Backlog(), s.taken, k);
    RemoveAtKeeps(s.Backlog(), k);
  }

  lemma ServiceLosesNothing(s: State, t: State, k: nat)
    requires NothingLost(s) && k < |s.Backlog()| && t.Backlog() == RemoveAt(s.Backlog(), k)
    requires t.taken == s.taken + [s.Backlog()[k]] && t.arrived == s.arrived
    ensures NothingLost(t)
  {
    var q := s.Backlog();
    assert q == q[..k] + [q[k]] + q[k + 1..];
  }

  lemma MovesKeepOrder(s: State, t: State)
    requires OrderSafe(s) && NothingLost(s) && BacklogMoves(s, t)
    ensures OrderSafe(t) && NothingLost(t)
  {
    if t.arrived != s.arrived {
      var r: Request :| r.arrival == |s.arrived| && t.arrived == s.arrived + [r]
                        && t.Backlog() == s.Backlog() + [r] && t.taken == s.taken;
      ArrivalKeepsOrder(s, t, r);
    } else if t.taken != s.taken {
      var k: nat :| HazardFree(s.Backlog(), k) && t.Backlog() == RemoveAt(s.Backlog(), k)
                    && t.taken == s.taken + [s.Backlog()[k]] && t.arrived == s.arrived;
      ServiceKeepsOrder(s, t, k);
      ServiceLosesNothing(s, t, k);
    }
  }

  /** Every reachable state satisfies the invariant. */
  lemma {:induction false} EveryStateOfEveryRun(d: Drive, run: seq<State>, acts: seq<Action>, i: nat)
    requires d.Valid() && IsRun(d, run, acts) && i < |run|
    ensures Inv(d, run[i])
  {
    if 0 < i {
      EveryStateOfEveryRun(d, run, acts, i - 1);
      var s, a := run[i - 1], acts[i - 1];
      assert Enabled(s, a) && run[i] == Apply(d, s, a);
      MutualExclusionKept(d, s, a);
      CountsKept(d, s, a);
      NoInterferenceKept(d, s, a);
      BacklogStep(d, s, a);
      MovesKeepOrder(s, run[i]);
    }
  }

  /** The consumer reads queue `q`, with the lock or without; under SSTF it waits for the lock before it serves. */
  predicate ConsumerReads(s: State, q: QueueId) {
    match s.consumer
    case Using(purpose, source) => (purpose.ToLog? || !s.sstf) && q == source
    case Locked(source) => q == source
    case Candidate(source, _, _) => q == source
    case WalkingActive(_, source) => q == source
    case WalkingPassive(_, target) => q == target
    case _ => false
  }

  /** The receiver is about to append to a queue the consumer is reading. */
  predicate Clash(s: State) {
    s.receiver.Chosen? && ConsumerReads(s, s.receiver.target)
  }

  predicate HoldsQueue(c: Consumer) {
    c.Locked? || c.Candidate? || c.Using?
  }

  /**
   * In every state of every run: the receiver never appends to the queue the consumer chooses and takes from, the
   * queue the consumer selects, to serve from it or to log its next request, is not empty, slots are conserved, nothing
   * is lost, and no write is served late.
   */
  lemma RunsAreSafe(d: Drive, run: seq<State>, acts: seq<Action>, i: nat)
    requires d.Valid() && IsRun(d, run, acts) && i < |run|
    ensures var s := run[i];
            && (Clash(s) ==> Logs(s.consumer))
            && (HoldsQueue(s.consumer) ==> s.Queue(s.consumer.source) != [])
            && SlotsConserved(s)
            && multiset(s.Backlog()) + multiset(s.taken) == multiset(s.arrived)
            && ServedSafely(s.taken)
  {
    EveryStateOfEveryRun(d, run, acts, i);
  }

  /** A consumer that has taken a token can go on unless the receiver is in its critical section. */
  lemma ConsumerCanMove(d: Drive, s: State) returns (a: Action)
    requires d.Valid() && NoInterference(d, s) && MutualExclusion(s)
    requires !s.consumer.Waiting? && !ReceiverInside(s.receiver)
    ensures Enabled(s, a) && !a.Receive?
  {
    hide Pick, Apply;
    match s.consumer
    case Selecting(_) => a := SelectActive;
    case WantsToggle(_, _) => a := LockToggle;
    case Toggling(_, _) => a := ToggleFlag;
    case Toggled(_, _) => a := UnlockToggle;
    case Using(purpose, _) =>
      a := if purpose.ToLog? then EndLog else if s.sstf then LockSstf else Choose;
    case Locked(_) => a := Choose;
    case Candidate(_, _, _) => a := Take;
    case Taken(_, _) => a := UnlockSstf;
    case Serving(request, _) => a := if IsLogged(s, request) then StartLog else Finish;
    case WalkingActive(_, _) => a := EndActiveWalk;
    case WalkingPassive(_, _) => a := EndPassiveWalk;
    case Describing(_) => a := LookAhead;
    case Logged(_) => a := Finish;
    case Finished => a := PostSlot;
  }

  /** Some thread can always move while a request is held, queued or in service. */
  lemma NeverDeadlocked(d: Drive, s: State) returns (a: Action)
    requires d.Valid() && Inv(d, s)
    requires !s.receiver.Idle? || !s.consumer.Waiting? || s.first != [] || s.second != []
    ensures Enabled(s, a) && !a.Receive?
  {
    hide NoInterference, OrderSafe, NothingLost;
    if ReceiverInside(s.receiver) {
      match s.receiver
      case HasMutex(_) => a := ChoosePassive;
      case Chosen(_, _) => a := Append;
      case Appended => a := PostElem;
      case Posted => a := UnlockQueue;
    } else if !s.consumer.Waiting? {
      a := ConsumerCanMove(d, s);
    } else if s.receiver.Reporting? {
      a := Report;
    } else if s.receiver.HasSlot? {
      a := LockQueue;
    } else if s.first == [] && s.second == [] {
      a := WaitSlot;
    } else {
      a := WaitElem;
    }
  }
}
