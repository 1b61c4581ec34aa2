/** The disk server's consumer: which queued request it serves next, and where that leaves the arm. */
module Taker {
  import opened Geometry
  import opened Queues

  datatype Kind = ReadSectors | WriteSectors | Trace

  /** A queued request; `arrival` records the order in which requests were queued and is never read by the scheduler. */
  datatype Request = Request(kind: Kind, id: nat, at: Chs, sender: nat, arrival: nat)

  datatype Direction = Up | Down | Sstf

  /** The condition function selected for a direction: may the arm go to `a` from `b`? */
  predicate Satisfies(d: Direction, a: Chs, b: Chs) {
    match d
    case Up => b.cylinder <= a.cylinder
    case Down => a.cylinder <= b.cylinder
    case Sstf => true
  }

  function Toggle(d: Direction): Direction {
    if d == Up then Down else Up
  }

  /** Positive when the current request should replace the candidate. */
  function Near(current: Request, head: Chs, candidate: Request, d: Direction): nat {
    match (Satisfies(d, current.at, head), Satisfies(d, candidate.at, head))
    case (true, true) =>
      var currentTracks := Distance(current.at.cylinder, head.cylinder);
      var candidateTracks := Distance(candidate.at.cylinder, head.cylinder);
      if currentTracks < candidateTracks then 2
      else if currentTracks == candidateTracks && current.kind == WriteSectors && candidate.kind != WriteSectors then 2
      else 0
    case (true, false) => 1
    case _ => 0
  }

  // ---------- what the choice means ----------

  /** Rank of a request: reachable in the direction first, then fewer tracks, then writes before the rest. */
  function Rank(r: Request, head: Chs, d: Direction): (nat, nat, nat) {
    if !Satisfies(d, r.at, head) then (1, 0, 0)
    else (0, Distance(r.at.cylinder, head.cylinder), if r.kind == WriteSectors then 0 else 1)
  }

  predicate Less(a: (nat, nat, nat), b: (nat, nat, nat)) {
    a.0 < b.0 || (a.0 == b.0 && (a.1 < b.1 || (a.1 == b.1 && a.2 < b.2)))
  }

  /** `q[k]` is of minimal rank among the first `n` requests, and the first of that rank. */
  ghost predicate FirstBestOf(q: seq<Request>, n: nat, head: Chs, d: Direction, k: nat) {
    && k < n <= |q|
    && (forall j :: 0 <= j < n ==> !Less(Rank(q[j], head, d), Rank(q[k], head, d)))
    && (forall j :: 0 <= j < k ==> Less(Rank(q[k], head, d), Rank(q[j], head, d)))
  }

  ghost predicate FirstBest(q: seq<Request>, head: Chs, d: Direction, k: nat) {
    FirstBestOf(q, |q|, head, d, k)
  }

  lemma FirstBestIsUnique(q: seq<Request>, head: Chs, d: Direction, k: nat, m: nat)
    requires FirstBest(q, head, d, k) && FirstBest(q, head, d, m)
    ensures k == m
  {
    assert !Less(Rank(q[k], head, d), Rank(q[m], head, d)) && !Less(Rank(q[m], head, d), Rank(q[k], head, d));
  }

  /** The candidate after the search has seen the first `n` requests. */
  function PickOf(q: seq<Request>, n: nat, head: Chs, d: Direction): (k: nat)
    requires 0 < n <= |q|
    ensures FirstBestOf(q, n, head, d, k)
  {
    if n == 1 then 0
    else
      var k := PickOf(q, n - 1, head, d);
      if Near(q[n - 1], head, q[k], d) > 0 then n - 1 else k
  }

  /** Position of the request the search settles on. */
  function Pick(q: seq<Request>, head: Chs, d: Direction): (k: nat)
    requires q != []
    ensures FirstBest(q, head, d, k)
  {
    PickOf(q, |q|, head, d)
  }

  /** The search fails only when no request lies in the direction of travel. */
  predicate Reachable(q: seq<Request>, head: Chs, d: Direction)
    requires q != []
  {
    Satisfies(d, q[Pick(q, head, d)].at, head)
  }

  /** A choice other than the first request lies in the direction, so testing the first one is enough. */
  lemma LaterChoiceIsReachable(q: seq<Request>, head: Chs, d: Direction)
    requires q != [] && Pick(q, head, d) != 0
    ensures Reachable(q, head, d)
  {
    assert Less(Rank(q[Pick(q, head, d)], head, d), Rank(q[0], head, d));
  }

  lemma ReachableIffSomeSatisfies(q: seq<Request>, head: Chs, d: Direction)
    requires q != []
    ensures Reachable(q, head, d) <==> exists i :: 0 <= i < |q| && Satisfies(d, q[i].at, head)
  {
    var k := Pick(q, head, d);
    forall i | 0 <= i < |q| && Satisfies(d, q[i].at, head)
      ensures Satisfies(d, q[k].at, head)
    {
      assert !Less(Rank(q[i], head, d), Rank(q[k], head, d));
    }
  }

  // ---------- FSCAN ----------

  ghost predicate InsideDrive(d: Drive, q: seq<Request>) {
    forall i :: 0 <= i < |q| ==> d.Holds(q[i].at)
  }

  function ExtremeCylinder(d: Drive, direction: Direction): nat
    requires d.Valid()
  {
    if direction == Up then d.cylinders - 1 else 0
  }

  /** Arm position after travelling to `cylinder` without serving anything. */
  function MoveToCylinder(d: Drive, position: nat, cylinder: nat): nat
    requires d.Valid()
  {
    var at := d.ToChs(position);
    d.ToSectorNum(at.(cylinder := cylinder, sector := d.ReachedSector(cylinder, at)))
  }

  datatype Arm = Arm(position: nat, direction: Direction)

  /** Where the arm stands, and which way it moves, when it sets off for the chosen request. */
  function SetOff(d: Drive, q: seq<Request>, arm: Arm): Arm
    requires d.Valid() && q != []
  {
    if Reachable(q, d.ToChs(arm.position), arm.direction) then arm
    else Arm(MoveToCylinder(d, arm.position, ExtremeCylinder(d, arm.direction)), Toggle(arm.direction))
  }

  function FscanPick(d: Drive, q: seq<Request>, arm: Arm): (k: nat)
    requires d.Valid() && q != []
    ensures k < |q|
  {
    var off := SetOff(d, q, arm);
    Pick(q, d.ToChs(off.position), off.direction)
  }

  lemma MoveReachesCylinder(d: Drive, position: nat, cylinder: nat)
    requires d.OneHead() && position < d.cylinders * d.sectors && cylinder < d.cylinders
    ensures d.ToChs(MoveToCylinder(d, position, cylinder))
         == Chs(cylinder, 0, d.ReachedSector(cylinder, d.ToChs(position)))
    ensures MoveToCylinder(d, position, cylinder) < d.cylinders * d.sectors
  {
    ToChsInRange(d, position);
    var at := d.ToChs(position);
    ReachedSectorInRange(d, cylinder, at);
    var to := at.(cylinder := cylinder, sector := d.ReachedSector(cylinder, at));
    ConversionInvertsNumbering(d, to);
    NumberInRange(d, to);
  }

  lemma NumberInRange(d: Drive, p: Chs)
    requires d.OneHead() && d.Holds(p)
    ensures d.ToSectorNum(p) < d.cylinders * d.sectors
  {
    ProductMonotone(d.sectors, p.cylinder + 1, d.cylinders);
  }

  /** After the trip to the extreme every request lies in the new direction, so the second search succeeds. */
  lemma SetOffReachesTheChoice(d: Drive, q: seq<Request>, arm: Arm)
    requires d.OneHead() && InsideDrive(d, q) && q != []
    requires arm.position < d.cylinders * d.sectors && arm.direction != Sstf
    ensures var off := SetOff(d, q, arm);
            && off.direction != Sstf && off.position < d.cylinders * d.sectors
            && Reachable(q, d.ToChs(off.position), off.direction)
            && (off.direction != arm.direction ==>
                  && d.ToChs(off.position).cylinder == ExtremeCylinder(d, arm.direction)
                  && forall i :: 0 <= i < |q| ==> Satisfies(off.direction, q[i].at, d.ToChs(off.position)))
  {
    var off := SetOff(d, q, arm);
    if off.direction != arm.direction {
      MoveReachesCylinder(d, arm.position, ExtremeCylinder(d, arm.direction));
      assert Satisfies(off.direction, q[0].at, d.ToChs(off.position));
      ReachableIffSomeSatisfies(q, d.ToChs(off.position), off.direction);
    }
  }

  /** Request `r` is where the arm at cylinder `from` is going, or beyond. */
  predicate LiesAhead(direction: Direction, r: Request, from: nat) {
    (direction == Up ==> from <= r.at.cylinder) && (direction == Down ==> r.at.cylinder <= from)
  }

  /** The arm turns exactly when no request lies ahead, and then at the extreme; else it chooses from where it stands. */
  lemma TurnsOnlyWhenNoneAhead(d: Drive, q: seq<Request>, arm: Arm)
    requires d.Valid() && q != []
    ensures var off := SetOff(d, q, arm);
            && (off.direction != arm.direction
                <==> forall i :: 0 <= i < |q| ==> !LiesAhead(arm.direction, q[i], d.ToChs(arm.position).cylinder))
            && (off.direction == arm.direction ==> off == arm)
            && FirstBest(q, d.ToChs(off.position), off.direction, FscanPick(d, q, arm))
  {
    var head := d.ToChs(arm.position);
    ReachableIffSomeSatisfies(q, head, arm.direction);
    assert forall i :: 0 <= i < |q| ==> (Satisfies(arm.direction, q[i].at, head) <==> LiesAhead(arm.direction, q[i], head.cylinder));
    assert arm.direction == Sstf ==> LiesAhead(Sstf, q[0], head.cylinder);
  }

  /** After a turn the arm stands on the extreme cylinder, inside the disk. */
  lemma TurnsAtTheExtreme(d: Drive, q: seq<Request>, arm: Arm)
    requires d.OneHead() && arm.position < d.cylinders * d.sectors && q != []
    ensures var off := SetOff(d, q, arm);
            && off.position < d.cylinders * d.sectors
            && (off.direction != arm.direction ==>
                  && d.ToChs(off.position).cylinder == ExtremeCylinder(d, arm.direction)
                  && d.ToChs(off.position).sector
                     == d.ReachedSector(ExtremeCylinder(d, arm.direction), d.ToChs(arm.position))
                  && off.direction == (if arm.direction == Up then Down else Up))
  {
    MoveReachesCylinder(d, arm.position, ExtremeCylinder(d, arm.direction));
  }

  /** Time to seek from `position` to a request and wait for its sector. */
  function DistanceTime(d: Drive, request: Chs, position: nat): int
    requires d.Valid()
  {
    var from := d.ToChs(position);
    Distance(from.cylinder, request.cylinder) * d.trackJump + d.RotationTo(request, from) * d.sectorJump
  }

  /** The time is that of the tracks crossed, and of the least wait that brings the sector under the head. */
  lemma DistanceTimeIs(d: Drive, request: Chs, position: nat, wait: nat)
    requires d.OneHead() && d.Holds(request) && wait < d.sectors
    requires (d.ReachedSector(request.cylinder, d.ToChs(position)) + wait) % d.sectors == request.sector
    ensures DistanceTime(d, request, position)
         == Distance(d.ToChs(position).cylinder, request.cylinder) * d.trackJump + wait * d.sectorJump
  {
    var at := d.ToChs(position);
    PositionInTrack(d, position);
    RotationIsWait(d, request, at, wait);
  }

  /** The state the consumer thread owns. */
  class Consumer {
    const drive: Drive
    var headPosition: nat
    var tracePosition: nat
    var direction: Direction

    constructor (drive: Drive, position: nat, direction: Direction)
      ensures this.drive == drive && headPosition == position && this.direction == direction
    {
      this.drive, this.direction := drive, direction;
      headPosition, tracePosition := position, position;
    }

    /** Walks the queue once keeping the node before the best request seen so far. */
    static method GetNextNode(queue: Queue<Request>, head: Chs, d: Direction)
        returns (found: bool, prevCandidate: Node?<Request>, ghost k: nat)
      requires queue.Valid() && queue.contents != []
      ensures queue.Precedes(prevCandidate, k) && k == Pick(queue.contents, head, d)
      ensures found <==> Reachable(queue.contents, head, d)
    {
      hide Near, Satisfies, FirstBestOf, FirstBest;
      prevCandidate, k := null, 0;
      var node := queue.begin;
      ghost var n := 0;
      while node.next != null
        invariant n < |queue.nodes| && node == queue.nodes[n]
        invariant queue.Precedes(prevCandidate, k) && k <= n
        invariant k == PickOf(queue.contents, n + 1, head, d)
        decreases |queue.nodes| - n
      {
        var candidate := if prevCandidate == null then queue.begin else prevCandidate.next;
        if Near(node.next.data, head, candidate.data, d) > 0 {
          prevCandidate, k := node, n + 1;
        }
        node, n := node.next, n + 1;
      }
      found := prevCandidate != null || Satisfies(d, queue.begin.data.at, head);
      if prevCandidate != null {
        LaterChoiceIsReachable(queue.contents, head, d);
      }
    }

    method MoveHeadPos(d: Direction) returns (delay: nat)
      requires drive.Valid()
      modifies this`tracePosition
      ensures tracePosition == MoveToCylinder(drive, old(tracePosition), ExtremeCylinder(drive, d))
      ensures delay == Distance(drive.ToChs(old(tracePosition)).cylinder, ExtremeCylinder(drive, d)) * drive.trackJump
    {
      var to := if d == Up then drive.cylinders - 1 else 0;
      var at := drive.ToChs(tracePosition);
      delay := Distance(at.cylinder, to) * drive.trackJump;
      var reached := drive.ReachedSector(to, at);
      tracePosition := drive.ToSectorNum(at.(cylinder := to, sector := reached));
    }

    method FscanGetNext(queue: Queue<Request>) returns (prevCandidate: Node?<Request>, delay: nat, ghost k: nat)
      requires drive.Valid() && queue.Valid() && queue.contents != []
      requires tracePosition == headPosition
      modifies this`tracePosition, this`direction
      ensures queue.Precedes(prevCandidate, k) && k == FscanPick(drive, queue.contents, old(Arm(headPosition, direction)))
      ensures Arm(tracePosition, direction) == SetOff(drive, queue.contents, old(Arm(headPosition, direction)))
      ensures delay == if direction == old(direction) then 0
                       else Distance(drive.ToChs(headPosition).cylinder, ExtremeCylinder(drive, old(direction))) * drive.trackJump
      ensures direction != old(direction) <==>
                forall i :: 0 <= i < |queue.contents| ==>
                  !LiesAhead(old(direction), queue.contents[i], drive.ToChs(headPosition).cylinder)
      ensures direction == old(direction) ==> tracePosition == headPosition
      ensures FirstBest(queue.contents, drive.ToChs(tracePosition), direction, k)
    {
      hide FirstBest, LiesAhead, Pick;
      TurnsOnlyWhenNoneAhead(drive, queue.contents, Arm(headPosition, direction));
      var found;
      delay := 0;
      found, prevCandidate, k := GetNextNode(queue, drive.ToChs(headPosition), direction);
      if !found {
        delay := MoveHeadPos(direction);
        direction := Toggle(direction);
        found, prevCandidate, k := GetNextNode(queue, drive.ToChs(tracePosition), direction);
      }
    }

    /** Unlinks the chosen request and adds its own seek to the delay of any trip to the extreme. */
    method TakeRequest(queue: Queue<Request>, prevCandidate: Node?<Request>, ghost k: nat, tripDelay: nat)
        returns (request: Request, delay: int)
      requires drive.Valid() && queue.Valid() && queue.Precedes(prevCandidate, k)
      modifies queue, queue.nodes
      ensures queue.Valid() && request == old(queue.contents)[k] && queue.contents == RemoveAt(old(queue.contents), k)
      ensures delay == tripDelay + DistanceTime(drive, request.at, tracePosition)
    {
      request := queue.RemoveAfter(prevCandidate, k);
      delay := tripDelay + DistanceTime(drive, request.at, tracePosition);
    }

    /** One turn of the consumer under FSCAN: choose, unlink, seek, and leave the arm past the sector served. */
    method ServeNext(queue: Queue<Request>) returns (request: Request, delay: int)
      requires drive.Valid() && queue.Valid() && queue.contents != []
      modifies this, queue, queue.nodes
      ensures queue.Valid()
      ensures var k := FscanPick(drive, old(queue.contents), old(Arm(headPosition, direction)));
              request == old(queue.contents)[k] && queue.contents == RemoveAt(old(queue.contents), k)
      ensures headPosition == drive.NextHeadPosition(drive.ToSectorNum(request.at))
      ensures Arm(tracePosition, direction) == SetOff(drive, old(queue.contents), old(Arm(headPosition, direction)))
      ensures direction != old(direction) <==>
                forall i :: 0 <= i < |old(queue.contents)| ==>
                  !LiesAhead(old(direction), old(queue.contents)[i], drive.ToChs(old(headPosition)).cylinder)
      ensures direction == old(direction) ==> tracePosition == old(headPosition)
      ensures FirstBest(old(queue.contents), drive.ToChs(tracePosition), direction,
                        FscanPick(drive, old(queue.contents), old(Arm(headPosition, direction))))
      ensures delay == DistanceTime(drive, request.at, tracePosition)
              + if direction == old(direction) then 0
                else Distance(drive.ToChs(old(headPosition)).cylinder, ExtremeCylinder(drive, old(direction))) * drive.trackJump
    {
      hide FscanPick, SetOff, FirstBest, LiesAhead, DistanceTime;
      tracePosition := headPosition;
      var prev, trip;
      ghost var k;
      prev, trip, k := FscanGetNext(queue);
      request, delay := TakeRequest(queue, prev, k, trip);
      headPosition := drive.NextHeadPosition(drive.ToSectorNum(request.at));
    }
  }
}
