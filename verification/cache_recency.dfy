/** Which block the cache gives up: over every run, the one whose cluster was used least recently. */
module CacheRecency {
  import opened Bytes
  import opened FileCaches

  // ---------- counting blocks ----------

  ghost function Clusters(blocks: seq<Block>): set<nat> {
    set i | 0 <= i < |blocks| :: blocks[i].cluster
  }

  lemma {:induction false} ClusterCount(blocks: seq<Block>)
    requires Distinct(blocks)
    ensures |Clusters(blocks)| == |blocks|
  {
    if blocks != [] {
      var n := |blocks| - 1;
      var init, last := blocks[..n], blocks[n].cluster;
      ClusterCount(init);
      forall k | k in Clusters(blocks)
        ensures k in Clusters(init) || k == last
      {
        var i :| 0 <= i < |blocks| && blocks[i].cluster == k;
        assert i < n ==> init[i].cluster == k;
      }
      assert Clusters(blocks) == Clusters(init) + {last};
    }
  }

  lemma SubsetSize(a: set<nat>, b: set<nat>)
    requires a <= b
    ensures |a| <= |b|
  {
    assert b == a + (b - a);
  }

  // ---------- one operation ----------

  /** Cluster `k` has a block used at `since` or later, and no block is as recent but those of `others`. */
  ghost predicate Recent(s: State, k: nat, since: int, others: set<nat>) {
    && Holds(s.blocks, k) && since <= s.blocks[Find(s.blocks, k)].stamp
    && forall i :: 0 <= i < |s.blocks| && since <= s.blocks[i].stamp ==> s.blocks[i].cluster == k || s.blocks[i].cluster in others
  }

  /** A hit or an insertion at a given time, as far as stamps go. */
  ghost predicate Uses(s: State, r: State, used: nat, now: int) {
    && r.bytes == s.bytes
    && if Holds(s.blocks, used) then
         var i := Find(s.blocks, used);
         |r.blocks| == |s.blocks| && r.blocks == s.blocks[i := r.blocks[i]]
         && r.blocks[i].cluster == used && r.blocks[i].stamp == now
       else if |s.blocks| < s.Capacity() then
         && |r.blocks| == |s.blocks| + 1 && r.blocks[..|s.blocks|] == s.blocks
         && r.blocks[|s.blocks|].cluster == used && r.blocks[|s.blocks|].stamp == now
       else
         Lru(s.blocks, now).Some?
         && var i := Lru(s.blocks, now).value;
            |r.blocks| == |s.blocks| && r.blocks == s.blocks[i := r.blocks[i]]
            && r.blocks[i].cluster == used && r.blocks[i].stamp == now
  }

  predicate IsAccess(op: Op) {
    !op.Flush?
  }

  lemma AccessUses(s: State, op: Op)
    requires FileCaches.WellFormed(s) && s.bytes != 0 && Allowed(s, op) && IsAccess(op)
    ensures Uses(s, Step(s, op), op.cluster, op.now)
  {
  }

  /** The block of the cluster just used is the most recent of all. */
  lemma UsedIsRecent(s: State, r: State, used: nat, now: int)
    requires FileCaches.WellFormed(s) && Uses(s, r, used, now) && forall i :: 0 <= i < |s.blocks| ==> s.blocks[i].stamp < now
    ensures Recent(r, used, now, {})
  {
    if Holds(s.blocks, used) {
      var i := Find(s.blocks, used);
      FindUpdated(s.blocks, i, r.blocks[i], used);
    } else if |s.blocks| < s.Capacity() {
      var b := r.blocks[|s.blocks|];
      assert r.blocks == s.blocks + [b];
      FindAppended(s.blocks, b, used);
    } else {
      var i := Lru(s.blocks, now).value;
      FindReplaced(s.blocks, i, r.blocks[i], used);
    }
  }

  /** A full cache gives up the recent block only when every other one is as recent. */
  lemma FullOfRecent(s: State, k: nat, since: int, others: set<nat>, used: nat, i: nat)
    requires FileCaches.WellFormed(s) && Recent(s, k, since, others) && !Holds(s.blocks, used)
    requires i < |s.blocks| && s.blocks[i].cluster == k && forall j :: 0 <= j < |s.blocks| ==> s.blocks[i].stamp <= s.blocks[j].stamp
    ensures |s.blocks| <= |others + {used}|
  {
    FindIs(s.blocks, k, i);
    NotHeld(s.blocks, used);
    ClusterCount(s.blocks);
    var rest := Clusters(s.blocks) - {k};
    assert k in Clusters(s.blocks) && used !in Clusters(s.blocks);
    assert |rest + {used}| == |s.blocks|;
    SubsetSize(rest + {used}, others + {used});
  }

  /** While fewer other clusters than the cache has room for are used, a recent block stays. */
  lemma RecentStays(s: State, r: State, k: nat, since: int, others: set<nat>, used: nat, now: int)
    requires FileCaches.WellFormed(s) && Recent(s, k, since, others) && Uses(s, r, used, now) && since <= now
    requires |others + (if used == k then {} else {used})| < s.Capacity()
    ensures Recent(r, k, since, others + if used == k then {} else {used})
  {
    if Holds(s.blocks, used) {
      var i := Find(s.blocks, used);
      FindUpdated(s.blocks, i, r.blocks[i], k);
    } else if |s.blocks| < s.Capacity() {
      var b := r.blocks[|s.blocks|];
      assert r.blocks == s.blocks + [b];
      FindAppended(s.blocks, b, k);
    } else {
      var i := Lru(s.blocks, now).value;
      if s.blocks[i].cluster == k {
        FullOfRecent(s, k, since, others, used, i);
      }
      FindReplaced(s.blocks, i, r.blocks[i], k);
    }
  }

  // ---------- whole runs ----------

  /** Each access is later than every block in the cache. */
  ghost predicate Ticking(run: seq<State>, ops: seq<Op>)
    requires |run| == |ops| + 1
  {
    forall n :: 0 <= n < |ops| && IsAccess(ops[n]) ==> forall i :: 0 <= i < |run[n].blocks| ==> run[n].blocks[i].stamp < ops[n].now
  }

  /** The clusters other than `k` that operations `i` to `j` use. */
  ghost function Others(ops: seq<Op>, i: nat, j: nat, k: nat): set<nat>
    requires i <= j <= |ops| && forall n :: i <= n < j ==> IsAccess(ops[n])
  {
    if i == j then {}
    else
      assert IsAccess(ops[j - 1]);
      Others(ops, i, j - 1, k) + if ops[j - 1].cluster == k then {} else {ops[j - 1].cluster}
  }

  lemma {:induction false} StillRecent(run: seq<State>, ops: seq<Op>, i: nat, j: nat, k: nat, since: int)
    requires IsRun(run, ops) && Ticking(run, ops) && i <= j < |run| && run[0].bytes != 0
    requires forall n :: i <= n < j ==> IsAccess(ops[n])
    requires Recent(run[i], k, since, {}) && |Others(ops, i, j, k)| < run[0].Capacity()
    ensures Recent(run[j], k, since, Others(ops, i, j, k))
    decreases j - i
  {
    hide Recent, Step, Allowed, Uses, Coherent;
    if i < j {
      var s, op := run[j - 1], ops[j - 1];
      SubsetSize(Others(ops, i, j - 1, k), Others(ops, i, j, k));
      StillRecent(run, ops, i, j - 1, k, since);
      CacheIsInvisible(run, ops, j - 1);
      CoherentIsWellFormed(s);
      assert Allowed(s, op) && run[j] == Step(s, op);
      AccessUses(s, op);
      RecentIsPast(s, k, since, Others(ops, i, j - 1, k), op.now);
      RecentStays(s, run[j], k, since, Others(ops, i, j - 1, k), op.cluster, op.now);
    }
  }

  lemma CoherentIsWellFormed(s: State)
    requires Coherent(s)
    ensures FileCaches.WellFormed(s)
  {
  }

  lemma RecentIsPast(s: State, k: nat, since: int, others: set<nat>, now: int)
    requires Recent(s, k, since, others) && forall i :: 0 <= i < |s.blocks| ==> s.blocks[i].stamp < now
    ensures since <= now
  {
  }

  /**
   * A cluster that was used keeps its block until as many other clusters as the cache has room for have been used, or a
   * flush.
   */
  lemma RecentlyUsedStays(run: seq<State>, ops: seq<Op>, i: nat, j: nat)
    requires IsRun(run, ops) && Ticking(run, ops) && i < j < |run| && run[0].bytes != 0
    requires forall n :: i <= n < j ==> IsAccess(ops[n])
    requires |Others(ops, i + 1, j, ops[i].cluster)| < run[0].Capacity()
    ensures Holds(run[j].blocks, ops[i].cluster)
  {
    hide Step, Allowed, Uses, Coherent;
    var s, op := run[i], ops[i];
    CacheIsInvisible(run, ops, i);
    CoherentIsWellFormed(s);
    assert Allowed(s, op) && run[i + 1] == Step(s, op);
    AccessUses(s, op);
    UsedIsRecent(s, run[i + 1], op.cluster, op.now);
    StillRecent(run, ops, i + 1, j, op.cluster, op.now);
  }

  /** In a cache of two blocks or more, what was just used is not given up for the next cluster. */
  lemma JustUsedIsNotReplaced(run: seq<State>, ops: seq<Op>, i: nat)
    requires IsRun(run, ops) && Ticking(run, ops) && i + 1 < |ops| && 2 <= run[0].Capacity()
    requires IsAccess(ops[i]) && IsAccess(ops[i + 1])
    ensures Holds(run[i + 2].blocks, ops[i].cluster)
  {
    var k, others := ops[i].cluster, Others(ops, i + 1, i + 2, ops[i].cluster);
    assert Others(ops, i + 1, i + 1, k) == {};
    assert others == if ops[i + 1].cluster == k then {} else {ops[i + 1].cluster};
    RecentlyUsedStays(run, ops, i, i + 2);
  }
}
