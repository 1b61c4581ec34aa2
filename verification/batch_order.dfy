/** In what order a frozen batch serves the requests for one sector. */
module BatchOrder {
  import opened Geometry
  import opened Queues
  import opened Taker
  import opened Hazards
  import opened Fscan

  /** The arm is on the disk; under SSTF its place does not matter. */
  ghost predicate Ready(d: Drive, q: seq<Request>, arm: Arm) {
    d.OneHead() && InsideDrive(d, q) && (arm.direction == Sstf || ArmOk(d, arm))
  }

  /** What is served next lies within reach, and the batch that is left can be served on. */
  lemma ServeIsReady(d: Drive, q: seq<Request>, arm: Arm)
    requires Ready(d, q, arm) && q != []
    ensures var off := SetOff(d, q, arm); Reachable(q, d.ToChs(off.position), off.direction)
    ensures Ready(d, RemoveAt(q, FscanPick(d, q, arm)), Serve(d, q, arm).1)
  {
    var k := FscanPick(d, q, arm);
    RemoveAtKeeps(q, k);
    if arm.direction == Sstf {
      ReachableIffSomeSatisfies(q, d.ToChs(arm.position), Sstf);
      assert Satisfies(Sstf, q[0].at, d.ToChs(arm.position));
    } else {
      SetOffReachesTheChoice(d, q, arm);
      ServeKeepsTheRestAhead(d, q, arm);
    }
  }

  function Served(d: Drive, q: seq<Request>, arm: Arm): seq<Request>
    requires d.Valid()
  {
    Requests(ServeBatch(d, q, arm))
  }

  /** The batch is served by taking the choice and serving the rest. */
  lemma ServedFirst(d: Drive, q: seq<Request>, arm: Arm)
    requires d.Valid() && q != []
    ensures var k := FscanPick(d, q, arm);
            Served(d, q, arm) == [q[k]] + Served(d, RemoveAt(q, k), Serve(d, q, arm).1)
  {
    var batch := ServeBatch(d, q, arm);
    assert batch[1..] == ServeBatch(d, RemoveAt(q, FscanPick(d, q, arm)), Serve(d, q, arm).1);
  }

  ghost predicate Before(out: seq<Request>, a: Request, b: Request) {
    exists m, n :: 0 <= m < n < |out| && out[m] == a && out[n] == b
  }

  lemma BeforeInTail(first: Request, rest: seq<Request>, a: Request, b: Request)
    ensures Before(rest, a, b) ==> Before([first] + rest, a, b)
    ensures a == first && b in rest ==> Before([first] + rest, a, b)
  {
    var out := [first] + rest;
    if Before(rest, a, b) {
      var m, n :| 0 <= m < n < |rest| && rest[m] == a && rest[n] == b;
      assert out[m + 1] == a && out[n + 1] == b;
    }
    if a == first && b in rest {
      var n :| 0 <= n < |rest| && rest[n] == b;
      assert out[0] == a && out[n + 1] == b;
    }
  }

  lemma {:induction false} AllServed(d: Drive, q: seq<Request>, arm: Arm, r: Request)
    requires d.Valid()
    ensures r in Served(d, q, arm) <==> r in q
    decreases |q|
  {
    if q != [] {
      var k := FscanPick(d, q, arm);
      ServedFirst(d, q, arm);
      AllServed(d, RemoveAt(q, k), Serve(d, q, arm).1, r);
      RemoveAtKeeps(q, k);
      assert r in q <==> r in multiset(q);
      assert r in RemoveAt(q, k) <==> r in multiset(RemoveAt(q, k));
    }
  }

  /** Where a request stands once the one at `k` is gone. */
  function Moved(i: nat, k: nat): nat
    requires i != k
  {
    if i < k then i else i - 1
  }

  lemma MovedStays(q: seq<Request>, k: nat, i: nat)
    requires k < |q| && i < |q| && i != k
    ensures Moved(i, k) < |RemoveAt(q, k)| && RemoveAt(q, k)[Moved(i, k)] == q[i]
  {
  }

  /** In any batch, a request that is not a write is served after every later write to its sector. */
  lemma {:induction false} LaterWriteGoesFirst(d: Drive, q: seq<Request>, arm: Arm, i: nat, j: nat)
    requires Ready(d, q, arm) && i < j < |q| && q[i].at == q[j].at
    requires q[i].kind != WriteSectors && q[j].kind == WriteSectors
    ensures Before(Served(d, q, arm), q[j], q[i])
    decreases |q|
  {
    hide ServeBatch, Serve, FscanPick, Before, Ready, Served;
    assert d.Valid() by { DriveIsValid(d, q, arm); }
    var k := FscanPick(d, q, arm);
    var rest, next := RemoveAt(q, k), Serve(d, q, arm).1;
    ServeIsReady(d, q, arm);
    ServedFirst(d, q, arm);
    BeforeInTail(q[k], Served(d, rest, next), q[j], q[i]);
    NotChosenYet(d, q, arm, i, j);
    MovedStays(q, k, i);
    if k == j {
      AllServed(d, rest, next, q[i]);
    } else {
      MovedStays(q, k, j);
      LaterWriteGoesFirst(d, rest, next, Moved(i, k), Moved(j, k));
    }
  }

  lemma DriveIsValid(d: Drive, q: seq<Request>, arm: Arm)
    requires Ready(d, q, arm)
    ensures d.Valid()
  {
  }

  lemma NotChosenYet(d: Drive, q: seq<Request>, arm: Arm, i: nat, j: nat)
    requires Ready(d, q, arm) && i < |q| && j < |q| && q[i].at == q[j].at
    requires q[i].kind != WriteSectors && q[j].kind == WriteSectors
    ensures FscanPick(d, q, arm) != i
  {
    ServeIsReady(d, q, arm);
    var off := SetOff(d, q, arm);
    if Pick(q, d.ToChs(off.position), off.direction) == i {
      NonWriteWaitsForWrites(q, d.ToChs(off.position), off.direction, j);
    }
  }

  // ---------- exactly when nothing is overtaken ----------

  /** Requests for one sector are served in the order they arrived. */
  ghost predicate InSectorOrder(out: seq<Request>) {
    forall m, n :: 0 <= m < n < |out| && out[m].at == out[n].at ==> out[m].arrival < out[n].arrival
  }

  /** No request that is not a write stands in front of a write to its own sector. */
  predicate NoWriteBehind(q: seq<Request>) {
    forall i, j :: 0 <= i < j < |q| && q[i].at == q[j].at && q[j].kind == WriteSectors ==> q[i].kind == WriteSectors
  }

  /** The choice is then the first of its sector, and what is left is of the same kind. */
  lemma ChoiceIsFirstOfItsSector(d: Drive, q: seq<Request>, arm: Arm, r: Request)
    requires d.Valid() && q != [] && InArrivalOrder(q) && NoWriteBehind(q)
    ensures var k := FscanPick(d, q, arm);
            r in RemoveAt(q, k) && r.at == q[k].at ==> q[k].arrival < r.arrival
  {
    var k := FscanPick(d, q, arm);
    var off := SetOff(d, q, arm);
    RemoveAtKeeps(q, k);
    if r in RemoveAt(q, k) && r.at == q[k].at {
      var i :| 0 <= i < |q| - 1 && RemoveAt(q, k)[i] == r;
      if i < k {
        OnlyWritesOvertake(q, d.ToChs(off.position), off.direction, i);
      }
    }
  }

  lemma RestIsAlike(q: seq<Request>, k: nat)
    requires k < |q| && InArrivalOrder(q) && NoWriteBehind(q)
    ensures InArrivalOrder(RemoveAt(q, k)) && NoWriteBehind(RemoveAt(q, k))
  {
    RemoveAtKeeps(q, k);
  }

  lemma {:induction false} ServedInSectorOrder(d: Drive, q: seq<Request>, arm: Arm)
    requires d.Valid() && InArrivalOrder(q) && NoWriteBehind(q)
    ensures InSectorOrder(Served(d, q, arm))
    decreases |q|
  {
    hide Served, ServeBatch, Serve, FscanPick, InArrivalOrder, NoWriteBehind;
    if q == [] {
      NothingServed(d, arm);
    } else {
      var k := FscanPick(d, q, arm);
      var rest, next := RemoveAt(q, k), Serve(d, q, arm).1;
      ServedFirst(d, q, arm);
      RestIsAlike(q, k);
      ServedInSectorOrder(d, rest, next);
      var tail := Served(d, rest, next);
      forall n | 0 <= n < |tail| && tail[n].at == q[k].at
        ensures q[k].arrival < tail[n].arrival
      {
        AllServed(d, rest, next, tail[n]);
        ChoiceIsFirstOfItsSector(d, q, arm, tail[n]);
      }
    }
  }

  lemma NothingServed(d: Drive, arm: Arm)
    requires d.Valid()
    ensures Served(d, [], arm) == []
  {
  }

  /**
   * A batch is served in arrival order sector by sector if and only if no request that is not a write stands in front
   * of a write to its own sector.
   */
  lemma SectorOrderIff(d: Drive, q: seq<Request>, arm: Arm)
    requires Ready(d, q, arm) && InArrivalOrder(q)
    ensures InSectorOrder(Served(d, q, arm)) <==> NoWriteBehind(q)
  {
    hide Served, Ready;
    DriveIsValid(d, q, arm);
    if NoWriteBehind(q) {
      ServedInSectorOrder(d, q, arm);
    } else {
      var i, j :| 0 <= i < j < |q| && q[i].at == q[j].at && q[j].kind == WriteSectors && q[i].kind != WriteSectors;
      LaterWriteGoesFirst(d, q, arm, i, j);
      assert Before(Served(d, q, arm), q[j], q[i]);
    }
  }
}
