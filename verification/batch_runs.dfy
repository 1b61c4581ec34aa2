/** What the two threads serve, seen over whole runs: the arm follows the requests, and batches are served as frozen. */
module BatchRuns {
  import opened Geometry
  import opened Queues
  import opened Taker
  import opened Hazards
  import opened Fscan
  import opened BatchOrder
  import opened SchedulerRuns
  import opened ServiceBound

  // ---------- where the arm is ----------

  /** Arm position once all of `taken` has been served, from `start` on. */
  function PositionAfter(d: Drive, start: nat, taken: seq<Request>): nat
    requires d.Valid()
  {
    if taken == [] then start else d.NextHeadPosition(d.ToSectorNum(taken[|taken| - 1].at))
  }

  /** The request the consumer has taken and not yet moved the arm for. */
  function InHand(c: SchedulerRuns.Consumer): seq<Request> {
    match c
    case Taken(r, _) => [r]
    case Serving(r, _) => [r]
    case WalkingActive(r, _) => [r]
    case WalkingPassive(r, _) => [r]
    case Describing(r) => [r]
    case Selecting(p) => if p.ToLog? then [p.request] else []
    case WantsToggle(p, _) => if p.ToLog? then [p.request] else []
    case Toggling(p, _) => if p.ToLog? then [p.request] else []
    case Toggled(p, _) => if p.ToLog? then [p.request] else []
    case Using(p, _) => if p.ToLog? then [p.request] else []
    case Logged(r) => [r]
    case _ => []
  }

  /** With nothing in hand the arm is where the last request taken left it. */
  ghost predicate ArmTrue(d: Drive, s: State, start: nat)
    requires d.Valid()
  {
    && (InHand(s.consumer) == [] ==> s.arm.position == PositionAfter(d, start, s.taken))
    && (InHand(s.consumer) != [] ==> s.taken != [] && s.taken[|s.taken| - 1] == InHand(s.consumer)[0])
    && (s.sstf ==> s.arm.direction == Sstf)
    && (s.sstf && s.consumer.Candidate? ==> s.consumer.off == s.arm)
  }

  lemma ReceiverKeepsArm(d: Drive, s: State, a: Action, start: nat)
    requires d.Valid() && Enabled(s, a) && OfReceiver(a) && ArmTrue(d, s, start)
    ensures ArmTrue(d, Apply(d, s, a), start)
  {
    hide PositionAfter;
  }

  lemma SelectionKeepsArm(d: Drive, s: State, a: Action, start: nat)
    requires d.Valid() && Enabled(s, a) && OfSelection(a) && ArmTrue(d, s, start)
    ensures ArmTrue(d, Apply(d, s, a), start)
  {
    hide PositionAfter;
  }

  lemma ChoiceKeepsArm(d: Drive, s: State, start: nat)
    requires d.Valid() && Enabled(s, Choose) && ArmTrue(d, s, start) && NoInterference(d, s)
    ensures ArmTrue(d, Apply(d, s, Choose), start)
  {
    hide PositionAfter, FscanPick;
    if s.sstf {
      SstfStays(d, s.Queue(s.consumer.source), s.arm);
    }
  }

  lemma SstfStays(d: Drive, q: seq<Request>, arm: Arm)
    requires d.Valid() && q != [] && arm.direction == Sstf
    ensures SetOff(d, q, arm) == arm
  {
    assert Satisfies(Sstf, q[Pick(q, d.ToChs(arm.position), Sstf)].at, d.ToChs(arm.position));
  }

  lemma TakeKeepsArm(d: Drive, s: State, start: nat)
    requires d.Valid() && Enabled(s, Take) && ArmTrue(d, s, start)
    ensures ArmTrue(d, Apply(d, s, Take), start)
  {
    hide PositionAfter, RemoveAt;
  }

  lemma FinishKeepsArm(d: Drive, s: State, start: nat)
    requires d.Valid() && Enabled(s, Finish) && ArmTrue(d, s, start)
    ensures ArmTrue(d, Apply(d, s, Finish), start)
  {
  }

  lemma LoggingKeepsArm(d: Drive, s: State, a: Action, start: nat)
    requires d.Valid() && Enabled(s, a) && !OfReceiver(a) && !OfSelection(a) && !a.Choose? && !a.Take? && !a.Finish?
    requires ArmTrue(d, s, start)
    ensures ArmTrue(d, Apply(d, s, a), start)
  {
    hide PositionAfter, SetOff, FscanPick, RemoveAt;
  }

  lemma StepKeepsArm(d: Drive, s: State, a: Action, start: nat)
    requires d.Valid() && Enabled(s, a) && ArmTrue(d, s, start) && NoInterference(d, s)
    ensures ArmTrue(d, Apply(d, s, a), start)
  {
    hide Apply, Enabled, ArmTrue, NoInterference;
    if OfReceiver(a) {
      ReceiverKeepsArm(d, s, a, start);
    } else if OfSelection(a) {
      SelectionKeepsArm(d, s, a, start);
    } else if a.Choose? {
      ChoiceKeepsArm(d, s, start);
    } else if a.Take? {
      TakeKeepsArm(d, s, start);
    } else if a.Finish? {
      FinishKeepsArm(d, s, start);
    } else {
      LoggingKeepsArm(d, s, a, start);
    }
  }

  lemma {:induction false} ArmInEveryState(d: Drive, run: seq<State>, acts: seq<Action>, i: nat)
    requires d.Valid() && IsRun(d, run, acts) && i < |run|
    ensures ArmTrue(d, run[i], run[0].arm.position)
  {
    hide ArmTrue, Apply, Enabled;
    if i == 0 {
      ArmAtStart(d, run[0]);
    } else {
      ArmInEveryState(d, run, acts, i - 1);
      EveryStateOfEveryRun(d, run, acts, i - 1);
      assert Enabled(run[i - 1], acts[i - 1]) && run[i] == Apply(d, run[i - 1], acts[i - 1]);
      StepKeepsArm(d, run[i - 1], acts[i - 1], run[0].arm.position);
    }
  }

  lemma ArmAtStart(d: Drive, s: State)
    requires d.Valid() && Init(s)
    ensures ArmTrue(d, s, s.arm.position)
  {
  }

  // ---------- requests inside the disk ----------

  /** All requests sent are for sectors of the disk, and so is where the arm starts. */
  ghost predicate SentInside(d: Drive, run: seq<State>, acts: seq<Action>)
    requires d.Valid() && IsRun(d, run, acts)
  {
    && d.OneHead() && run[0].arm.position < d.cylinders * d.sectors
    && forall i :: 0 <= i < |acts| && acts[i].Receive? ==> d.Holds(acts[i].request.at)
  }

  predicate ReceivedInside(d: Drive, r: Receiver) {
    match r
    case WantsSlot(request) => d.Holds(request.at)
    case HasSlot(request) => d.Holds(request.at)
    case HasMutex(request) => d.Holds(request.at)
    case Chosen(request, _) => d.Holds(request.at)
    case _ => true
  }

  ghost predicate AllInside(d: Drive, s: State) {
    InsideDrive(d, s.arrived) && ReceivedInside(d, s.receiver)
  }

  lemma StepStaysInside(d: Drive, s: State, a: Action)
    requires d.Valid() && Enabled(s, a) && AllInside(d, s) && (a.Receive? ==> d.Holds(a.request.at))
    ensures AllInside(d, Apply(d, s, a))
  {
    hide SetOff, FscanPick, RemoveAt;
    if a.Append? {
    } else if OfReceiver(a) {
    } else {
      ConsumerLeavesArrivals(d, s, a);
    }
  }

  lemma ConsumerLeavesArrivals(d: Drive, s: State, a: Action)
    requires d.Valid() && Enabled(s, a) && !OfReceiver(a)
    ensures Apply(d, s, a).arrived == s.arrived && Apply(d, s, a).receiver == s.receiver
  {
    hide SetOff, FscanPick, RemoveAt;
  }

  lemma {:induction false} InsideInEveryState(d: Drive, run: seq<State>, acts: seq<Action>, i: nat)
    requires d.Valid() && IsRun(d, run, acts) && SentInside(d, run, acts) && i < |run|
    ensures AllInside(d, run[i])
  {
    hide Apply, Enabled, AllInside;
    if i == 0 {
      InsideAtStart(d, run[0]);
    } else {
      InsideInEveryState(d, run, acts, i - 1);
      assert Enabled(run[i - 1], acts[i - 1]) && run[i] == Apply(d, run[i - 1], acts[i - 1]);
      StepStaysInside(d, run[i - 1], acts[i - 1]);
    }
  }

  lemma InsideAtStart(d: Drive, s: State)
    requires Init(s)
    ensures AllInside(d, s)
  {
  }

  /** What waits and what was taken has arrived. */
  lemma AllHaveArrived(d: Drive, s: State)
    requires NothingLost(s) && AllInside(d, s)
    ensures InsideDrive(d, s.Backlog()) && InsideDrive(d, s.taken)
  {
    forall i | 0 <= i < |s.Backlog()|
      ensures d.Holds(s.Backlog()[i].at)
    {
      assert s.Backlog()[i] in multiset(s.Backlog()) && s.Backlog()[i] in multiset(s.arrived);
    }
    forall i | 0 <= i < |s.taken|
      ensures d.Holds(s.taken[i].at)
    {
      assert s.taken[i] in multiset(s.taken) && s.taken[i] in multiset(s.arrived);
    }
  }

  /**
   * In every state of every run, with nothing in hand, the arm is on the cylinder of the last request taken, one sector on.
   */
  lemma ArmFollowsTheRequests(d: Drive, run: seq<State>, acts: seq<Action>, i: nat)
    requires d.Valid() && IsRun(d, run, acts) && SentInside(d, run, acts) && i < |run|
    ensures run[i].consumer.Waiting? && run[i].taken == [] ==> run[i].arm.position == run[0].arm.position
    ensures run[i].consumer.Waiting? && run[i].taken != [] ==>
              var last := run[i].taken[|run[i].taken| - 1].at;
              d.ToChs(run[i].arm.position) == Chs(last.cylinder, 0, (last.sector + 1) % d.sectors)
  {
    var s := run[i];
    ArmInEveryState(d, run, acts, i);
    InsideInEveryState(d, run, acts, i);
    EveryStateOfEveryRun(d, run, acts, i);
    AllHaveArrived(d, s);
    if s.consumer.Waiting? && s.taken != [] {
      HeadStaysOnTrack(d, s.taken[|s.taken| - 1].at);
    }
  }

  /** Under SSTF what is taken is the first of those whose cylinder is nearest to that of the request taken before. */
  lemma SstfTakesTheNearest(d: Drive, run: seq<State>, acts: seq<Action>, i: nat)
    requires d.Valid() && IsRun(d, run, acts) && SentInside(d, run, acts) && i < |acts| && run[0].sstf && acts[i].Take?
    requires run[i].taken != []
    ensures var s, last := run[i], run[i].taken[|run[i].taken| - 1].at.cylinder;
            && s.consumer.Candidate? && s.consumer.index < |s.first|
            && run[i + 1].taken == s.taken + [s.first[s.consumer.index]]
            && forall j :: 0 <= j < |s.first| ==>
                 Distance(s.first[s.consumer.index].at.cylinder, last) <= Distance(s.first[j].at.cylinder, last)
  {
    var s := run[i];
    assert Enabled(s, acts[i]) && run[i + 1] == Apply(d, s, acts[i]);
    hide Apply, Enabled, AllInside, ArmTrue, NoInterference, OrderSafe, NothingLost, MutualExclusion, SlotsConserved, ElemsCounted;
    hide Init, SentInside;
    SentIsOneHead(d, run, acts);
    ModeIsFixed(d, run, acts, i);
    ArmInEveryState(d, run, acts, i);
    InsideInEveryState(d, run, acts, i);
    EveryStateOfEveryRun(d, run, acts, i);
    AllHaveArrived(d, s);
    SstfNext(d, s, run[0].arm.position);
  }

  lemma SstfNext(d: Drive, s: State, start: nat)
    requires d.OneHead() && s.sstf && Enabled(s, Take) && ArmTrue(d, s, start) && NoInterference(d, s)
    requires s.taken != [] && InsideDrive(d, s.taken)
    ensures s.consumer.Candidate? && s.consumer.index < |s.first|
    ensures Apply(d, s, Take).taken == s.taken + [s.first[s.consumer.index]]
    ensures var last := s.taken[|s.taken| - 1].at.cylinder;
            forall j :: 0 <= j < |s.first| ==>
              Distance(s.first[s.consumer.index].at.cylinder, last) <= Distance(s.first[j].at.cylinder, last)
  {
    SstfCandidate(d, s, start);
    TakeAdds(d, s);
    hide Apply, Enabled, NoInterference, ArmTrue, Pick;
    HeadStaysOnTrack(d, s.taken[|s.taken| - 1].at);
    NearestOfAll(s.first, d.ToChs(s.arm.position));
  }

  lemma SentIsOneHead(d: Drive, run: seq<State>, acts: seq<Action>)
    requires d.Valid() && IsRun(d, run, acts) && SentInside(d, run, acts)
    ensures d.OneHead()
  {
  }

  lemma SstfCandidate(d: Drive, s: State, start: nat)
    requires d.Valid() && s.sstf && Enabled(s, Take) && ArmTrue(d, s, start) && NoInterference(d, s)
    ensures s.first != [] && s.consumer.index == Pick(s.first, d.ToChs(s.arm.position), Sstf)
    ensures s.arm.position == PositionAfter(d, start, s.taken)
  {
  }

  lemma TakeAdds(d: Drive, s: State)
    requires d.Valid() && Enabled(s, Take) && NoInterference(d, s) && s.sstf
    ensures s.consumer.index < |s.first| && Apply(d, s, Take).taken == s.taken + [s.first[s.consumer.index]]
  {
  }

  lemma NearestOfAll(q: seq<Request>, head: Chs)
    requires q != []
    ensures forall j :: 0 <= j < |q| ==>
              Distance(q[Pick(q, head, Sstf)].at.cylinder, head.cylinder) <= Distance(q[j].at.cylinder, head.cylinder)
  {
    var k := Pick(q, head, Sstf);
    forall j | 0 <= j < |q|
      ensures Distance(q[k].at.cylinder, head.cylinder) <= Distance(q[j].at.cylinder, head.cylinder)
    {
      assert !Less(Rank(q[j], head, Sstf), Rank(q[k], head, Sstf));
    }
  }

  // ---------- batches ----------

  /** What the batch at hand will still be served as. */
  function StillToServe(d: Drive, s: State, start: nat): seq<Request>
    requires d.Valid()
  {
    if s.consumer.Candidate? && s.consumer.index < |s.Queue(s.flag)| then
      var q, k := s.Queue(s.flag), s.consumer.index;
      [q[k]] + Served(d, RemoveAt(q, k), Arm(d.NextHeadPosition(d.ToSectorNum(q[k].at)), s.arm.direction))
    else Served(d, s.Queue(s.flag), Arm(PositionAfter(d, start, s.taken), s.arm.direction))
  }

  lemma ChoiceKeepsPlan(d: Drive, s: State, start: nat)
    requires d.Valid() && !s.sstf && Enabled(s, Choose) && NoInterference(d, s) && ArmTrue(d, s, start)
    ensures var t := Apply(d, s, Choose);
            t.taken == s.taken && StillToServe(d, t, start) == StillToServe(d, s, start)
  {
    hide Served, ServeBatch, RemoveAt;
    ServedFirst(d, s.Queue(s.flag), s.arm);
  }

  lemma TakeKeepsPlan(d: Drive, s: State, start: nat)
    requires d.Valid() && !s.sstf && Enabled(s, Take) && NoInterference(d, s)
    ensures var t := Apply(d, s, Take);
            t.taken + StillToServe(d, t, start) == s.taken + StillToServe(d, s, start) && s.taken <= t.taken
  {
    hide Served, ServeBatch, RemoveAt, SetOff, FscanPick, Pick;
  }

  lemma AppendKeepsPlan(d: Drive, s: State, start: nat)
    requires d.Valid() && !s.sstf && Enabled(s, Append) && NoInterference(d, s)
    ensures var t := Apply(d, s, Append);
            t.taken == s.taken && StillToServe(d, t, start) == StillToServe(d, s, start)
  {
    hide Served, ServeBatch, RemoveAt, PositionAfter;
  }

  lemma OthersKeepPlan(d: Drive, s: State, a: Action, start: nat)
    requires d.Valid() && !s.sstf && Enabled(s, a) && !a.Choose? && !a.Take? && !a.Append? && !a.ToggleFlag?
    ensures var t := Apply(d, s, a);
            t.taken == s.taken && StillToServe(d, t, start) == StillToServe(d, s, start)
  {
    hide Served, ServeBatch, RemoveAt, PositionAfter, SetOff, FscanPick;
    QuietActions(d, s, a);
  }

  lemma QuietActions(d: Drive, s: State, a: Action)
    requires d.Valid() && Enabled(s, a) && !a.Choose? && !a.Take? && !a.Append? && !a.ToggleFlag?
    ensures var t := Apply(d, s, a);
            && t.taken == s.taken && t.first == s.first && t.second == s.second && t.flag == s.flag
            && t.arm.direction == s.arm.direction && !t.consumer.Candidate? == !s.consumer.Candidate?
            && (s.consumer.Candidate? ==> t.consumer == s.consumer)
  {
    hide SetOff, FscanPick, RemoveAt;
  }

  /** No action but a toggle changes what has been and will be served of the batch at hand. */
  lemma StepKeepsPlan(d: Drive, s: State, a: Action, start: nat)
    requires d.Valid() && !s.sstf && Enabled(s, a) && !a.ToggleFlag? && NoInterference(d, s) && ArmTrue(d, s, start)
    ensures var t := Apply(d, s, a);
            s.taken <= t.taken && t.taken + StillToServe(d, t, start) == s.taken + StillToServe(d, s, start)
  {
    hide Apply, Enabled, NoInterference, ArmTrue, StillToServe;
    match a
    case Choose => ChoiceKeepsPlan(d, s, start);
    case Take => TakeKeepsPlan(d, s, start);
    case Append => AppendKeepsPlan(d, s, start);
    case _ => OthersKeepPlan(d, s, a, start);
  }

  ghost predicate NoToggle(acts: seq<Action>, i: nat, j: nat) {
    forall n :: i <= n < j && n < |acts| ==> !acts[n].ToggleFlag?
  }

  lemma {:induction false} PlanKept(d: Drive, run: seq<State>, acts: seq<Action>, i: nat, j: nat)
    requires d.Valid() && IsRun(d, run, acts) && !run[0].sstf && i <= j < |run| && NoToggle(acts, i, j)
    ensures var start := run[0].arm.position;
            && run[i].taken <= run[j].taken
            && run[j].taken + StillToServe(d, run[j], start) == run[i].taken + StillToServe(d, run[i], start)
    decreases j - i
  {
    hide Apply, Enabled, StillToServe, ArmTrue, NoInterference;
    if i < j {
      PlanKept(d, run, acts, i, j - 1);
      var s, a := run[j - 1], acts[j - 1];
      assert Enabled(s, a) && run[j] == Apply(d, s, a);
      EveryStateOfEveryRun(d, run, acts, j - 1);
      ArmInEveryState(d, run, acts, j - 1);
      ModeIsFixed(d, run, acts, j - 1);
      StepKeepsPlan(d, s, a, run[0].arm.position);
    }
  }

  /** The batch the first toggle freezes, and the arm it will be served from. */
  function FrozenBatch(s: State): seq<Request> {
    s.Queue(s.flag)
  }

  function ArmThen(d: Drive, s: State, start: nat): Arm
    requires d.Valid()
  {
    Arm(PositionAfter(d, start, s.taken), s.arm.direction)
  }

  /**
   * Between two toggles of an FSCAN run, what is taken is the start of what serving the frozen batch alone takes, from where
   * the last request taken leaves the arm; and all of it once the batch is used up.
   */
  lemma RunServesTheBatch(d: Drive, run: seq<State>, acts: seq<Action>, i: nat, j: nat)
    requires d.Valid() && IsRun(d, run, acts) && !run[0].sstf && i < j < |run| && NoToggle(acts, i + 1, j)
    requires acts[i].ToggleFlag?
    ensures run[i + 1].taken <= run[j].taken
    ensures var batch := Served(d, FrozenBatch(run[i + 1]), ArmThen(d, run[i + 1], run[0].arm.position));
            var done := run[j].taken[|run[i + 1].taken|..];
            && done <= batch
            && (FrozenBatch(run[j]) == [] ==> done == batch)
  {
    hide Served, ServeBatch, Apply;
    var start, s, t := run[0].arm.position, run[i + 1], run[j];
    AfterToggle(d, run, acts, i);
    PlanKept(d, run, acts, i + 1, j);
    var batch := Served(d, FrozenBatch(s), ArmThen(d, s, start));
    var done := t.taken[|s.taken|..];
    assert StillToServe(d, s, start) == batch;
    Onward(s.taken, t.taken, StillToServe(d, t, start), batch);
    if FrozenBatch(t) == [] {
      EmptyPlan(d, t, start);
    }
  }

  lemma Onward(before: seq<Request>, after: seq<Request>, left: seq<Request>, all: seq<Request>)
    requires before <= after && after + left == before + all
    ensures after[|before|..] + left == all
  {
    assert after == before + after[|before|..];
    assert (before + all)[|before|..] == all;
    assert (after + left)[|before|..] == after[|before|..] + left;
  }

  lemma EmptyPlan(d: Drive, s: State, start: nat)
    requires d.Valid() && FrozenBatch(s) == []
    ensures StillToServe(d, s, start) == []
  {
    NothingServed(d, ArmThen(d, s, start));
  }

  lemma AfterToggle(d: Drive, run: seq<State>, acts: seq<Action>, i: nat)
    requires d.Valid() && IsRun(d, run, acts) && i < |acts| && acts[i].ToggleFlag?
    ensures run[i + 1].consumer.Toggled?
  {
    assert Enabled(run[i], acts[i]) && run[i + 1] == Apply(d, run[i], acts[i]);
  }

  /** The arm a batch is served from is on the disk and moves up or down. */
  lemma BatchIsReady(d: Drive, run: seq<State>, acts: seq<Action>, i: nat)
    requires d.Valid() && IsRun(d, run, acts) && SentInside(d, run, acts) && !run[0].sstf && i < |run|
    requires run[0].arm.direction != Sstf
    ensures var arm := ArmThen(d, run[i], run[0].arm.position);
            InsideDrive(d, FrozenBatch(run[i])) && InArrivalOrder(FrozenBatch(run[i])) && ArmOk(d, arm)
  {
    var s := run[i];
    EveryStateOfEveryRun(d, run, acts, i);
    InsideInEveryState(d, run, acts, i);
    ModeIsFixed(d, run, acts, i);
    AllHaveArrived(d, s);
    DirectionIsReal(d, run, acts, i);
    var q := FrozenBatch(s);
    assert forall n :: 0 <= n < |q| ==> s.Backlog()[n] == q[n];
    if s.taken != [] {
      assert d.Holds(s.taken[|s.taken| - 1].at);
      NextHeadPositionInRange(d, s.taken[|s.taken| - 1].at);
    }
  }

  lemma {:induction false} DirectionIsReal(d: Drive, run: seq<State>, acts: seq<Action>, i: nat)
    requires d.Valid() && IsRun(d, run, acts) && !run[0].sstf && run[0].arm.direction != Sstf && i < |run|
    ensures run[i].arm.direction != Sstf
  {
    hide Enabled, Apply;
    if 0 < i {
      DirectionIsReal(d, run, acts, i - 1);
      assert Enabled(run[i - 1], acts[i - 1]) && run[i] == Apply(d, run[i - 1], acts[i - 1]);
      DirectionAfter(d, run[i - 1], acts[i - 1]);
    }
  }

  lemma DirectionAfter(d: Drive, s: State, a: Action)
    requires d.Valid() && Enabled(s, a) && s.arm.direction != Sstf
    ensures Apply(d, s, a).arm.direction != Sstf
  {
    hide FscanPick, RemoveAt, MoveToCylinder;
  }

  /**
   * So between two toggles the requests taken are served in at most two sweeps: first those at or beyond the arm, then the
   * others, in as many tracks as the batch needs.
   */
  lemma RunSweepsTheBatch(d: Drive, run: seq<State>, acts: seq<Action>, i: nat, j: nat) returns (visits: seq<Visit>, turn: nat)
    requires d.Valid() && IsRun(d, run, acts) && SentInside(d, run, acts) && !run[0].sstf && run[0].arm.direction != Sstf
    requires i < j < |run| && NoToggle(acts, i + 1, j) && acts[i].ToggleFlag?
    ensures run[i + 1].taken <= run[j].taken && run[j].taken[|run[i + 1].taken|..] <= Requests(visits)
    ensures multiset(Requests(visits)) == multiset(FrozenBatch(run[i + 1]))
    ensures turn <= |visits| && TotalTracks(visits) <= 2 * (d.cylinders - 1)
    ensures var arm := ArmThen(d, run[i + 1], run[0].arm.position);
            && OneSweep(visits[..turn], arm.direction, CylinderAt(d, arm.position))
            && OneSweep(visits[turn..], Toggle(arm.direction), ExtremeCylinder(d, arm.direction))
            && forall n :: 0 <= n < |visits| ==>
                 (n < turn <==> Beyond(arm.direction, visits[n].request.at.cylinder, CylinderAt(d, arm.position)))
  {
    hide Apply, OneSweep, ServeBatch, Requests, TotalTracks;
    var arm := ArmThen(d, run[i + 1], run[0].arm.position);
    RunServesTheBatch(d, run, acts, i, j);
    BatchIsReady(d, run, acts, i + 1);
    BatchServesEachOnce(d, FrozenBatch(run[i + 1]), arm);
    visits := ServeBatch(d, FrozenBatch(run[i + 1]), arm);
    turn := BatchTurnsAtMostOnce(d, FrozenBatch(run[i + 1]), arm);
  }

  /** And they are served in arrival order sector by sector if the batch held no write behind a request that is not one. */
  lemma RunKeepsSectorOrder(d: Drive, run: seq<State>, acts: seq<Action>, i: nat, j: nat)
    requires d.Valid() && IsRun(d, run, acts) && SentInside(d, run, acts) && !run[0].sstf && run[0].arm.direction != Sstf
    requires i < j < |run| && NoToggle(acts, i + 1, j) && acts[i].ToggleFlag?
    requires NoWriteBehind(FrozenBatch(run[i + 1]))
    ensures run[i + 1].taken <= run[j].taken && InSectorOrder(run[j].taken[|run[i + 1].taken|..])
  {
    hide Apply, Served, NoWriteBehind;
    RunServesTheBatch(d, run, acts, i, j);
    BatchIsReady(d, run, acts, i + 1);
    ServedInSectorOrder(d, FrozenBatch(run[i + 1]), ArmThen(d, run[i + 1], run[0].arm.position));
  }
}
