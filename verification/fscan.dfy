/** What a consumer that follows FSCAN does with one frozen batch of requests. */
module Fscan {
  import opened Geometry
  import opened Queues
  import opened Taker

  /** One request served, the direction the arm moved in, and the tracks it crossed to get there. */
  datatype Visit = Visit(request: Request, direction: Direction, tracks: nat)

  function CylinderAt(d: Drive, position: nat): nat
    requires d.Valid()
  {
    d.ToChs(position).cylinder
  }

  function Serve(d: Drive, q: seq<Request>, arm: Arm): (Visit, Arm)
    requires d.Valid() && q != []
  {
    var off := SetOff(d, q, arm);
    var r := q[FscanPick(d, q, arm)];
    var start, turn := CylinderAt(d, arm.position), CylinderAt(d, off.position);
    (Visit(r, off.direction, Distance(start, turn) + Distance(turn, r.at.cylinder)),
     Arm(d.NextHeadPosition(d.ToSectorNum(r.at)), off.direction))
  }

  /** Serves the whole batch with nothing arriving in it. */
  function ServeBatch(d: Drive, q: seq<Request>, arm: Arm): seq<Visit>
    requires d.Valid()
    decreases |q|
  {
    if q == [] then []
    else
      var (visit, next) := Serve(d, q, arm);
      [visit] + ServeBatch(d, RemoveAt(q, FscanPick(d, q, arm)), next)
  }

  function Requests(vs: seq<Visit>): seq<Request> {
    if vs == [] then [] else [vs[0].request] + Requests(vs[1..])
  }

  function TotalTracks(vs: seq<Visit>): nat {
    if vs == [] then 0 else vs[0].tracks + TotalTracks(vs[1..])
  }

  predicate Beyond(d: Direction, cylinder: nat, from: nat) {
    if d == Up then from <= cylinder else cylinder <= from
  }

  /** Cylinder of the last visit, or `from` without any. */
  function LastCylinder(vs: seq<Visit>, from: nat): nat {
    if vs == [] then from else vs[|vs| - 1].request.at.cylinder
  }

  /** Every visit is made in direction `d`, at or beyond `from`, and no later visit lies behind an earlier one. */
  ghost predicate OneSweep(vs: seq<Visit>, d: Direction, from: nat) {
    && (forall i :: 0 <= i < |vs| ==> vs[i].direction == d && Beyond(d, vs[i].request.at.cylinder, from))
    && (forall i, j :: 0 <= i < j < |vs| ==> Beyond(d, vs[j].request.at.cylinder, vs[i].request.at.cylinder))
  }

  /** Tracks between a cylinder and the edge of the disk the arm is moving to. */
  function Room(d: Drive, direction: Direction, cylinder: nat): int {
    if direction == Up then d.cylinders - 1 - cylinder else cylinder
  }

  ghost predicate ArmOk(d: Drive, arm: Arm)
    requires d.Valid()
  {
    arm.position < d.cylinders * d.sectors && arm.direction != Sstf
  }

  /** One pick goes to the nearest request ahead: whatever was ahead of the arm is still ahead of it afterwards. */
  lemma ServeKeepsTheRestAhead(d: Drive, q: seq<Request>, arm: Arm)
    requires d.OneHead() && InsideDrive(d, q) && q != [] && ArmOk(d, arm)
    ensures var (visit, next) := Serve(d, q, arm);
            var off := SetOff(d, q, arm);
            var from := CylinderAt(d, off.position);
            && ArmOk(d, next) && next.direction == visit.direction == off.direction
            && CylinderAt(d, next.position) == visit.request.at.cylinder < d.cylinders
            && Beyond(off.direction, visit.request.at.cylinder, from)
            && (forall i :: 0 <= i < |q| && Beyond(off.direction, q[i].at.cylinder, from)
                  ==> Beyond(off.direction, q[i].at.cylinder, visit.request.at.cylinder))
  {
    SetOffReachesTheChoice(d, q, arm);
    var (visit, next) := Serve(d, q, arm);
    var off := SetOff(d, q, arm);
    var head := d.ToChs(off.position);
    var r := visit.request;
    assert d.Holds(r.at);
    HeadStaysOnTrack(d, r.at);
    var after := Chs(r.at.cylinder, 0, (r.at.sector + 1) % d.sectors);
    NextHeadPositionInRange(d, r.at);
    forall i | 0 <= i < |q| && Beyond(off.direction, q[i].at.cylinder, head.cylinder)
      ensures Beyond(off.direction, q[i].at.cylinder, r.at.cylinder)
    {
      assert !Less(Rank(q[i], head, off.direction), Rank(r, head, off.direction));
    }
  }

  lemma NextHeadPositionInRange(d: Drive, p: Chs)
    requires d.OneHead() && d.Holds(p)
    ensures d.NextHeadPosition(d.ToSectorNum(p)) < d.cylinders * d.sectors
  {
    ProductMonotone(d.sectors, p.cylinder + 1, d.cylinders);
    if p.sector + 1 < d.sectors {
      DivModUnique(d.sectors, p.cylinder, p.sector + 1);
    } else {
      DivModUnique(d.sectors, p.cylinder + 1, 0);
    }
  }

  /** When every request lies ahead, the batch is one sweep that never passes the edge. */
  lemma {:induction false} SweepWhenAllAhead(d: Drive, q: seq<Request>, arm: Arm)
    requires d.OneHead() && InsideDrive(d, q) && ArmOk(d, arm) && CylinderAt(d, arm.position) < d.cylinders
    requires forall i :: 0 <= i < |q| ==> Beyond(arm.direction, q[i].at.cylinder, CylinderAt(d, arm.position))
    ensures OneSweep(ServeBatch(d, q, arm), arm.direction, CylinderAt(d, arm.position))
    ensures TotalTracks(ServeBatch(d, q, arm)) <= Room(d, arm.direction, CylinderAt(d, arm.position))
    ensures var start := CylinderAt(d, arm.position);
            TotalTracks(ServeBatch(d, q, arm)) == Distance(start, LastCylinder(ServeBatch(d, q, arm), start))
    decreases |q|
  {
    if q != [] {
      hide ServeBatch, Serve, SetOff, FscanPick, RemoveAt, OneSweep, LastCylinder;
      var k := FscanPick(d, q, arm);
      var (visit, next) := Serve(d, q, arm);
      BatchUnfolds(d, q, arm);
      StaysAhead(d, q, arm);
      RemoveAtKeeps(q, k);
      SweepWhenAllAhead(d, RemoveAt(q, k), next);
      PrependSweep(visit, ServeBatch(d, RemoveAt(q, k), next), arm.direction, CylinderAt(d, arm.position));
      PrependTracks(visit, ServeBatch(d, RemoveAt(q, k), next), arm.direction, CylinderAt(d, arm.position));
      LastOfLonger(visit, ServeBatch(d, RemoveAt(q, k), next), CylinderAt(d, arm.position));
    } else {
      NothingToVisit(d, q, arm);
    }
  }

  /** With everything ahead, the first request served is too, and leaves everything ahead. */
  lemma StaysAhead(d: Drive, q: seq<Request>, arm: Arm)
    requires d.OneHead() && InsideDrive(d, q) && ArmOk(d, arm) && q != [] && CylinderAt(d, arm.position) < d.cylinders
    requires forall i :: 0 <= i < |q| ==> Beyond(arm.direction, q[i].at.cylinder, CylinderAt(d, arm.position))
    ensures SetOff(d, q, arm) == arm
    ensures var (visit, next) := Serve(d, q, arm);
            var rest := RemoveAt(q, FscanPick(d, q, arm));
            && visit.direction == next.direction == arm.direction && ArmOk(d, next)
            && CylinderAt(d, next.position) == visit.request.at.cylinder < d.cylinders
            && Beyond(arm.direction, visit.request.at.cylinder, CylinderAt(d, arm.position))
            && visit.tracks == Distance(CylinderAt(d, arm.position), visit.request.at.cylinder)
            && InsideDrive(d, rest)
            && forall i :: 0 <= i < |rest| ==> Beyond(arm.direction, rest[i].at.cylinder, visit.request.at.cylinder)
  {
    var head := d.ToChs(arm.position);
    assert Satisfies(arm.direction, q[0].at, head);
    ReachableIffSomeSatisfies(q, head, arm.direction);
    ServeKeepsTheRestAhead(d, q, arm);
    RemoveAtKeeps(q, FscanPick(d, q, arm));
  }

  /** A sweep crosses the tracks between where it starts and where it ends. */
  lemma PrependTracks(visit: Visit, rest: seq<Visit>, direction: Direction, from: nat)
    requires Beyond(direction, visit.request.at.cylinder, from) && OneSweep(rest, direction, visit.request.at.cylinder)
    requires var c := visit.request.at.cylinder;
             visit.tracks == Distance(from, c) && TotalTracks(rest) == Distance(c, LastCylinder(rest, c))
    ensures TotalTracks([visit] + rest) == Distance(from, LastCylinder([visit] + rest, from))
  {
    assert ([visit] + rest)[1..] == rest;
    if rest != [] {
      assert ([visit] + rest)[|rest|] == rest[|rest| - 1];
    }
  }

  /** A visit ahead of a sweep that starts from it makes a longer sweep. */
  lemma PrependSweep(visit: Visit, rest: seq<Visit>, direction: Direction, from: nat)
    requires visit.direction == direction && Beyond(direction, visit.request.at.cylinder, from)
    requires OneSweep(rest, direction, visit.request.at.cylinder)
    ensures OneSweep([visit] + rest, direction, from)
  {
  }

  /** When nothing lies ahead, the arm goes to the extreme and the whole batch is one sweep back. */
  lemma SweepBackWhenNothingAhead(d: Drive, q: seq<Request>, arm: Arm)
    requires d.OneHead() && InsideDrive(d, q) && ArmOk(d, arm) && q != []
    requires CylinderAt(d, arm.position) < d.cylinders
    requires SetOff(d, q, arm).direction != arm.direction
    ensures OneSweep(ServeBatch(d, q, arm), Toggle(arm.direction), ExtremeCylinder(d, arm.direction))
    ensures TotalTracks(ServeBatch(d, q, arm)) <= Room(d, arm.direction, CylinderAt(d, arm.position)) + d.cylinders - 1
    ensures var extreme := ExtremeCylinder(d, arm.direction);
            TotalTracks(ServeBatch(d, q, arm)) == Room(d, arm.direction, CylinderAt(d, arm.position))
                                                  + Distance(extreme, LastCylinder(ServeBatch(d, q, arm), extreme))
  {
    hide ServeBatch, Serve, SetOff, FscanPick, RemoveAt, OneSweep, LastCylinder;
    var off, k := SetOff(d, q, arm), FscanPick(d, q, arm);
    var (visit, next) := Serve(d, q, arm);
    var rest, extreme := ServeBatch(d, RemoveAt(q, k), next), ExtremeCylinder(d, arm.direction);
    BatchUnfolds(d, q, arm);
    TurnedBack(d, q, arm);
    RemoveAtKeeps(q, k);
    SweepWhenAllAhead(d, RemoveAt(q, k), next);
    PrependSweep(visit, rest, off.direction, extreme);
    var trip := Distance(CylinderAt(d, arm.position), extreme);
    var short := visit.(tracks := visit.tracks - trip);
    PrependTracks(short, rest, off.direction, extreme);
    LastOfLonger(visit, rest, extreme);
    LastOfLonger(short, rest, extreme);
    LastInside(d, q, arm);
  }

  /** After a turn everything lies ahead of the extreme, and stays ahead of the first request served. */
  lemma TurnedBack(d: Drive, q: seq<Request>, arm: Arm)
    requires d.OneHead() && InsideDrive(d, q) && ArmOk(d, arm) && q != [] && CylinderAt(d, arm.position) < d.cylinders
    requires SetOff(d, q, arm).direction != arm.direction
    ensures var off := SetOff(d, q, arm);
            var (visit, next) := Serve(d, q, arm);
            var extreme, rest := ExtremeCylinder(d, arm.direction), RemoveAt(q, FscanPick(d, q, arm));
            && off.direction == Toggle(arm.direction) == visit.direction == next.direction && ArmOk(d, next)
            && CylinderAt(d, next.position) == visit.request.at.cylinder < d.cylinders
            && Beyond(off.direction, visit.request.at.cylinder, extreme)
            && visit.tracks == Distance(CylinderAt(d, arm.position), extreme) + Distance(extreme, visit.request.at.cylinder)
            && Distance(CylinderAt(d, arm.position), extreme) == Room(d, arm.direction, CylinderAt(d, arm.position))
            && InsideDrive(d, rest)
            && forall i :: 0 <= i < |rest| ==> Beyond(off.direction, rest[i].at.cylinder, visit.request.at.cylinder)
  {
    var off := SetOff(d, q, arm);
    SetOffReachesTheChoice(d, q, arm);
    ServeKeepsTheRestAhead(d, q, arm);
    assert forall i :: 0 <= i < |q| ==> Satisfies(off.direction, q[i].at, d.ToChs(off.position));
    RemoveAtKeeps(q, FscanPick(d, q, arm));
  }

  lemma LastInside(d: Drive, q: seq<Request>, arm: Arm)
    requires d.OneHead() && InsideDrive(d, q) && q != []
    ensures LastCylinder(ServeBatch(d, q, arm), ExtremeCylinder(d, arm.direction)) < d.cylinders
  {
    var vs := ServeBatch(d, q, arm);
    NothingToVisit(d, q, arm);
    VisitsAreOfTheBatch(d, q, arm, |vs| - 1);
    var i :| 0 <= i < |q| && q[i] == vs[|vs| - 1].request;
    assert d.Holds(q[i].at);
  }

  lemma PrependSplit(visit: Visit, rest: seq<Visit>, m: nat)
    requires m <= |rest|
    ensures ([visit] + rest)[..m + 1] == [visit] + rest[..m]
    ensures ([visit] + rest)[m + 1..] == rest[m..]
    ensures TotalTracks([visit] + rest) == visit.tracks + TotalTracks(rest)
  {
    assert ([visit] + rest)[1..] == rest;
  }

  lemma BatchUnfolds(d: Drive, q: seq<Request>, arm: Arm)
    requires d.Valid() && q != []
    ensures var (visit, next) := Serve(d, q, arm);
            ServeBatch(d, q, arm) == [visit] + ServeBatch(d, RemoveAt(q, FscanPick(d, q, arm)), next)
    ensures Serve(d, q, arm).0.request == q[FscanPick(d, q, arm)]
  {
  }

  lemma NothingToVisit(d: Drive, q: seq<Request>, arm: Arm)
    requires d.Valid()
    ensures q == [] <==> ServeBatch(d, q, arm) == []
  {
  }

  lemma RestIsOfTheBatch(q: seq<Request>, k: nat, r: Request)
    requires k < |q| && r in RemoveAt(q, k)
    ensures r in q
  {
  }

  /** The visits of a batch are to its requests. */
  lemma {:induction false} VisitsAreOfTheBatch(d: Drive, q: seq<Request>, arm: Arm, i: nat)
    requires d.Valid() && i < |ServeBatch(d, q, arm)|
    ensures ServeBatch(d, q, arm)[i].request in q
    decreases |q|
  {
    hide ServeBatch, Serve, FscanPick, RemoveAt;
    NothingToVisit(d, q, arm);
    BatchUnfolds(d, q, arm);
    if 0 < i {
      var k, next := FscanPick(d, q, arm), Serve(d, q, arm).1;
      RemoveAtKeeps(q, k);
      VisitsAreOfTheBatch(d, RemoveAt(q, k), next, i - 1);
      RestIsOfTheBatch(q, k, ServeBatch(d, RemoveAt(q, k), next)[i - 1].request);
    }
  }

  lemma NoneBehindIsAhead(d: Drive, q: seq<Request>, arm: Arm, r: Request)
    requires d.OneHead() && InsideDrive(d, q) && ArmOk(d, arm) && q != [] && r in q
    requires SetOff(d, q, arm).direction != arm.direction
    ensures !Beyond(arm.direction, r.at.cylinder, CylinderAt(d, arm.position))
  {
    TurnsOnlyWhenNoneAhead(d, q, arm);
    var i :| 0 <= i < |q| && q[i] == r;
    assert !LiesAhead(arm.direction, q[i], CylinderAt(d, arm.position));
  }

  /** Ahead of the arm, and ahead of it once it has served its first request, is the same for the rest. */
  lemma AheadOfTheNext(d: Drive, q: seq<Request>, arm: Arm, r: Request)
    requires d.OneHead() && InsideDrive(d, q) && ArmOk(d, arm) && q != [] && r in q
    requires SetOff(d, q, arm).direction == arm.direction
    ensures var next := Serve(d, q, arm).1;
            && CylinderAt(d, next.position) == Serve(d, q, arm).0.request.at.cylinder && next.direction == arm.direction
            && (Beyond(arm.direction, r.at.cylinder, CylinderAt(d, next.position))
                <==> Beyond(arm.direction, r.at.cylinder, CylinderAt(d, arm.position)))
  {
    ServeKeepsTheRestAhead(d, q, arm);
    TurnsOnlyWhenNoneAhead(d, q, arm);
    var i :| 0 <= i < |q| && q[i] == r;
  }

  /**
   * A frozen batch is served in at most two monotone sweeps. The visits before `turn` are exactly those to requests at or
   * beyond the arm's cylinder when the batch starts, made in the arm's own direction; the rest are made in the other one.
   * The tracks crossed are those of the two sweeps and of the trip to the extreme, and stay within twice the disk.
   */
  lemma {:induction false} BatchTurnsAtMostOnce(d: Drive, q: seq<Request>, arm: Arm) returns (turn: nat)
    requires d.OneHead() && InsideDrive(d, q) && ArmOk(d, arm)
    ensures turn <= |ServeBatch(d, q, arm)|
    ensures OneSweep(ServeBatch(d, q, arm)[..turn], arm.direction, CylinderAt(d, arm.position))
    ensures OneSweep(ServeBatch(d, q, arm)[turn..], Toggle(arm.direction), ExtremeCylinder(d, arm.direction))
    ensures forall i :: 0 <= i < |ServeBatch(d, q, arm)| ==>
              (i < turn <==> Beyond(arm.direction, ServeBatch(d, q, arm)[i].request.at.cylinder, CylinderAt(d, arm.position)))
    ensures TotalTracks(ServeBatch(d, q, arm)) == BatchTracks(d, ServeBatch(d, q, arm), arm, turn)
    ensures TotalTracks(ServeBatch(d, q, arm)) <= Room(d, arm.direction, CylinderAt(d, arm.position)) + d.cylinders - 1
    ensures TotalTracks(ServeBatch(d, q, arm)) <= 2 * (d.cylinders - 1)
    decreases |q|
  {
    hide OneSweep;
    ToChsInRange(d, arm.position);
    turn := 0;
    var vs := ServeBatch(d, q, arm);
    if q == [] {
      EmptySweeps(d, arm);
    } else if SetOff(d, q, arm).direction != arm.direction {
      SweepBackWhenNothingAhead(d, q, arm);
      forall i | 0 <= i < |vs|
        ensures !Beyond(arm.direction, vs[i].request.at.cylinder, CylinderAt(d, arm.position))
      {
        VisitsAreOfTheBatch(d, q, arm, i);
        NoneBehindIsAhead(d, q, arm, vs[i].request);
      }
      EmptySweeps(d, arm);
      assert vs[..0] == [] && vs[0..] == vs;
    } else {
      turn := BatchGoesOn(d, q, arm);
    }
  }

  /** Tracks of a batch that turns after `turn` visits: one sweep, or the trip to the extreme and the sweep back. */
  function BatchTracks(d: Drive, vs: seq<Visit>, arm: Arm, turn: nat): int
    requires d.Valid() && turn <= |vs|
  {
    var start, extreme := CylinderAt(d, arm.position), ExtremeCylinder(d, arm.direction);
    if turn == |vs| then Distance(start, LastCylinder(vs, start))
    else Room(d, arm.direction, start) + Distance(extreme, LastCylinder(vs, extreme))
  }

  lemma EmptySweeps(d: Drive, arm: Arm)
    requires d.Valid()
    ensures OneSweep([], arm.direction, CylinderAt(d, arm.position))
    ensures OneSweep([], Toggle(arm.direction), ExtremeCylinder(d, arm.direction))
  {
  }

  /** The case of a batch with something ahead of the arm. */
  lemma {:induction false} BatchGoesOn(d: Drive, q: seq<Request>, arm: Arm) returns (turn: nat)
    requires d.OneHead() && InsideDrive(d, q) && ArmOk(d, arm) && q != []
    requires SetOff(d, q, arm).direction == arm.direction
    ensures turn <= |ServeBatch(d, q, arm)|
    ensures OneSweep(ServeBatch(d, q, arm)[..turn], arm.direction, CylinderAt(d, arm.position))
    ensures OneSweep(ServeBatch(d, q, arm)[turn..], Toggle(arm.direction), ExtremeCylinder(d, arm.direction))
    ensures forall i :: 0 <= i < |ServeBatch(d, q, arm)| ==>
              (i < turn <==> Beyond(arm.direction, ServeBatch(d, q, arm)[i].request.at.cylinder, CylinderAt(d, arm.position)))
    ensures TotalTracks(ServeBatch(d, q, arm)) == BatchTracks(d, ServeBatch(d, q, arm), arm, turn)
    ensures TotalTracks(ServeBatch(d, q, arm)) <= Room(d, arm.direction, CylinderAt(d, arm.position)) + d.cylinders - 1
    ensures TotalTracks(ServeBatch(d, q, arm)) <= 2 * (d.cylinders - 1)
    decreases |q|, 0
  {
    hide OneSweep, ServeBatch, Serve, FscanPick, SetOff, RemoveAt, BatchTracks, ArmOk, InsideDrive;
    var k := FscanPick(d, q, arm);
    var (visit, next) := Serve(d, q, arm);
    var rest := ServeBatch(d, RemoveAt(q, k), next);
    BatchUnfolds(d, q, arm);
    GoesOn(d, q, arm);
    var m := BatchTurnsAtMostOnce(d, RemoveAt(q, k), next);
    turn := m + 1;
    PrependSplit(visit, rest, m);
    PrependSweep(visit, rest[..m], arm.direction, CylinderAt(d, arm.position));
    forall i | 0 <= i < |rest|
      ensures i < m <==> Beyond(arm.direction, rest[i].request.at.cylinder, CylinderAt(d, arm.position))
    {
      VisitsAreOfTheBatch(d, RemoveAt(q, k), next, i);
      RestIsOfTheBatch(q, k, rest[i].request);
      AheadOfTheNext(d, q, arm, rest[i].request);
    }
    LongerTracks(d, visit, rest, arm, next, m);
    TracksWithin(d, arm, CylinderAt(d, next.position));
  }

  lemma TracksWithin(d: Drive, arm: Arm, c: nat)
    requires d.OneHead() && ArmOk(d, arm) && c < d.cylinders && Beyond(arm.direction, c, CylinderAt(d, arm.position))
    ensures CylinderAt(d, arm.position) < d.cylinders
    ensures Distance(CylinderAt(d, arm.position), c) + Room(d, arm.direction, c) == Room(d, arm.direction, CylinderAt(d, arm.position))
    ensures Room(d, arm.direction, CylinderAt(d, arm.position)) <= d.cylinders - 1
  {
    ToChsInRange(d, arm.position);
  }

  /** What the first visit leaves, when something lies ahead. */
  lemma GoesOn(d: Drive, q: seq<Request>, arm: Arm)
    requires d.OneHead() && InsideDrive(d, q) && ArmOk(d, arm) && q != []
    requires SetOff(d, q, arm).direction == arm.direction
    ensures var (visit, next) := Serve(d, q, arm);
            && InsideDrive(d, RemoveAt(q, FscanPick(d, q, arm))) && |RemoveAt(q, FscanPick(d, q, arm))| == |q| - 1
            && ArmOk(d, next) && next.direction == visit.direction == arm.direction != Sstf
            && CylinderAt(d, next.position) == visit.request.at.cylinder < d.cylinders
            && Beyond(arm.direction, visit.request.at.cylinder, CylinderAt(d, arm.position))
            && visit.tracks == Distance(CylinderAt(d, arm.position), visit.request.at.cylinder)
            && CylinderAt(d, arm.position) < d.cylinders
  {
    ServeKeepsTheRestAhead(d, q, arm);
    TurnsOnlyWhenNoneAhead(d, q, arm);
    RemoveAtKeeps(q, FscanPick(d, q, arm));
    ToChsInRange(d, arm.position);
  }

  lemma LastOfLonger(visit: Visit, rest: seq<Visit>, from: nat)
    ensures LastCylinder([visit] + rest, from) == LastCylinder(rest, visit.request.at.cylinder)
    ensures TotalTracks([visit] + rest) == visit.tracks + TotalTracks(rest)
    ensures rest != [] ==> LastCylinder(rest, from) == LastCylinder(rest, visit.request.at.cylinder)
  {
    assert ([visit] + rest)[1..] == rest;
    if rest != [] {
      assert ([visit] + rest)[|rest|] == rest[|rest| - 1];
    }
  }

  lemma SweepGoesOn(rest: seq<Visit>, direction: Direction, from: nat)
    requires OneSweep(rest, direction, from)
    ensures Beyond(direction, LastCylinder(rest, from), from)
  {
  }

  lemma LongerTracks(d: Drive, visit: Visit, rest: seq<Visit>, arm: Arm, next: Arm, m: nat)
    requires d.Valid() && m <= |rest| && next.direction == arm.direction != Sstf
    requires CylinderAt(d, next.position) == visit.request.at.cylinder < d.cylinders
    requires Beyond(arm.direction, visit.request.at.cylinder, CylinderAt(d, arm.position)) && CylinderAt(d, arm.position) < d.cylinders
    requires visit.tracks == Distance(CylinderAt(d, arm.position), visit.request.at.cylinder)
    requires OneSweep(rest[..m], arm.direction, visit.request.at.cylinder)
    requires TotalTracks(rest) == BatchTracks(d, rest, next, m)
    ensures TotalTracks([visit] + rest) == BatchTracks(d, [visit] + rest, arm, m + 1)
  {
    hide OneSweep, LastCylinder, TotalTracks, CylinderAt;
    LastOfLonger(visit, rest, CylinderAt(d, arm.position));
    LastOfLonger(visit, rest, ExtremeCylinder(d, arm.direction));
    SweepGoesOn(rest[..m], arm.direction, visit.request.at.cylinder);
    assert m == |rest| ==> rest[..m] == rest;
  }

  /** Every request of the batch is served exactly once. */
  lemma {:induction false} BatchServesEachOnce(d: Drive, q: seq<Request>, arm: Arm)
    requires d.Valid()
    ensures multiset(Requests(ServeBatch(d, q, arm))) == multiset(q)
    ensures |ServeBatch(d, q, arm)| == |q|
    decreases |q|
  {
    if q != [] {
      var k := FscanPick(d, q, arm);
      var (visit, next) := Serve(d, q, arm);
      RemoveAtKeeps(q, k);
      BatchServesEachOnce(d, RemoveAt(q, k), next);
      assert ServeBatch(d, q, arm)[1..] == ServeBatch(d, RemoveAt(q, k), next);
    }
  }
}
