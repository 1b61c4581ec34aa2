/** Which order between requests to one sector the scheduler keeps, and which it does not. */
module Hazards {
  import opened Geometry
  import opened Queues
  import opened Taker

  /** Serving `later` before `earlier` would lose a write or return stale data. */
  predicate Conflicts(earlier: Request, later: Request) {
    earlier.kind == WriteSectors && earlier.at == later.at
  }

  /** No request in front of position `k` conflicts with the one there. */
  ghost predicate HazardFree(q: seq<Request>, k: nat) {
    k < |q| && forall j :: 0 <= j < k ==> !Conflicts(q[j], q[k])
  }

  /** The scheduler never lets a request overtake an earlier write to its sector. */
  lemma PickIsHazardFree(q: seq<Request>, head: Chs, d: Direction)
    requires q != []
    ensures HazardFree(q, Pick(q, head, d))
  {
    var k := Pick(q, head, d);
    forall j | 0 <= j < k
      ensures !Conflicts(q[j], q[k])
    {
      assert Less(Rank(q[k], head, d), Rank(q[j], head, d));
    }
  }

  /** Overtaking on one sector happens only when a write passes a request that is not a write. */
  lemma OnlyWritesOvertake(q: seq<Request>, head: Chs, d: Direction, j: nat)
    requires q != [] && j < Pick(q, head, d) && q[j].at == q[Pick(q, head, d)].at
    ensures q[Pick(q, head, d)].kind == WriteSectors && q[j].kind != WriteSectors
  {
    assert Less(Rank(q[Pick(q, head, d)], head, d), Rank(q[j], head, d));
  }

  /** And it always happens: no non-write is chosen, from any queue, while a write to its sector is waiting in it. */
  lemma NonWriteWaitsForWrites(q: seq<Request>, head: Chs, d: Direction, j: nat)
    requires q != [] && j < |q| && Reachable(q, head, d)
    requires q[j].kind == WriteSectors && q[j].at == q[Pick(q, head, d)].at
    ensures q[Pick(q, head, d)].kind == WriteSectors
  {
    assert !Less(Rank(q[j], head, d), Rank(q[Pick(q, head, d)], head, d));
  }

  /** A read followed by a write to its sector, both within reach, is served after it. */
  lemma ReadThenWriteIsReordered(read: Request, write: Request, head: Chs, d: Direction)
    requires read.kind == ReadSectors && write.kind == WriteSectors && read.at == write.at
    requires Satisfies(d, read.at, head)
    ensures Pick([read, write], head, d) == 1
  {
    assert PickOf([read, write], 1, head, d) == 0;
  }

  /** Requests numbered in the order they were queued. */
  ghost predicate InArrivalOrder(q: seq<Request>) {
    forall i, j :: 0 <= i < j < |q| ==> q[i].arrival < q[j].arrival
  }

  /** No write is served after a later request to its sector. */
  ghost predicate ServedSafely(served: seq<Request>) {
    forall i, j :: 0 <= i < j < |served| && Conflicts(served[j], served[i]) ==> served[i].arrival < served[j].arrival
  }

  /** No write still waiting has been passed by a later request to its sector. */
  ghost predicate NotOvertaken(waiting: seq<Request>, served: seq<Request>) {
    forall i, j :: 0 <= i < |waiting| && 0 <= j < |served| && Conflicts(waiting[i], served[j])
      ==> served[j].arrival < waiting[i].arrival
  }

  /** Serving a hazard-free position keeps the service order safe. */
  lemma ServingKeepsOrderSafe(waiting: seq<Request>, served: seq<Request>, k: nat)
    requires InArrivalOrder(waiting) && HazardFree(waiting, k)
    requires ServedSafely(served) && NotOvertaken(waiting, served)
    ensures InArrivalOrder(RemoveAt(waiting, k))
    ensures ServedSafely(served + [waiting[k]]) && NotOvertaken(RemoveAt(waiting, k), served + [waiting[k]])
  {
    RemoveAtKeeps(waiting, k);
  }

  /** Queuing a request that arrived after everything else keeps the order safe. */
  lemma QueuingKeepsOrderSafe(waiting: seq<Request>, served: seq<Request>, r: Request)
    requires InArrivalOrder(waiting) && NotOvertaken(waiting, served)
    requires forall i :: 0 <= i < |waiting| ==> waiting[i].arrival < r.arrival
    requires forall i :: 0 <= i < |served| ==> served[i].arrival < r.arrival
    ensures InArrivalOrder(waiting + [r]) && NotOvertaken(waiting + [r], served)
  {
  }
}
