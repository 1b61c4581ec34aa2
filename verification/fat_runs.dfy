/** Sequences of operations on the allocation table: invariants over runs, the free count, and resizing a file. */
module FatRuns {
  import opened Bytes
  import opened FatChains

  /** What any operation makes of any volume; one that is not possible changes nothing. */
  ghost function Next(v: Volume, op: Op, eoc: Word): Volume {
    if Readable(v, op) && Possible(v, op) then Step(v, op, eoc) else v
  }

  /** A history of the volume under an arbitrary sequence of operations. */
  ghost predicate IsRun(run: seq<Volume>, ops: seq<Op>, eoc: Word) {
    && |run| == |ops| + 1 && Partitioned(run[0])
    && forall i :: 0 <= i < |ops| ==> run[i + 1] == Next(run[i], ops[i], eoc)
  }

  /** No operation is kept from a partitioned volume by anything but its own guard. */
  lemma PartitionedIsReadable(v: Volume, op: Op)
    requires Partitioned(v)
    ensures Readable(v, op)
  {
  }

  /**
   * A volume that starts partitioned stays so under every sequence of operations, no chain ever comes back to a
   * cluster, and every operation whose guard holds takes effect.
   */
  lemma {:induction false} EveryVolumeOfEveryRun(run: seq<Volume>, ops: seq<Op>, eoc: Word, i: nat)
    requires IsRun(run, ops, eoc) && IsEoc(eoc) && i < |run|
    ensures Partitioned(run[i]) && |run[i].table| == |run[0].table|
    ensures forall f, a, b :: f in run[i].chains && 0 <= a < b < |run[i].chains[f]| ==> run[i].chains[f][a] != run[i].chains[f][b]
    ensures i < |ops| && Possible(run[i], ops[i]) ==> Readable(run[i], ops[i]) && run[i + 1] == Step(run[i], ops[i], eoc)
  {
    hide Partitioned, Step, Possible, Readable;
    if 0 < i {
      var v, op := run[i - 1], ops[i - 1];
      EveryVolumeOfEveryRun(run, ops, eoc, i - 1);
      assert run[i] == Next(v, op, eoc);
      if Readable(v, op) && Possible(v, op) {
        StepKeepsPartition(v, op, eoc);
        StepKeepsSize(v, op, eoc);
      }
    }
    forall f, a, b | f in run[i].chains && 0 <= a < b < |run[i].chains[f]|
      ensures run[i].chains[f][a] != run[i].chains[f][b]
    {
      ChainHasNoRepeats(run[i], f, a, b);
    }
    if i < |ops| {
      PartitionedIsReadable(run[i], ops[i]);
      assert run[i + 1] == Next(run[i], ops[i], eoc);
    }
  }

  lemma StepKeepsSize(v: Volume, op: Op, eoc: Word)
    requires Readable(v, op) && Possible(v, op)
    ensures |Step(v, op, eoc).table| == |v.table|
  {
  }

  lemma ChainHasNoRepeats(v: Volume, f: nat, a: nat, b: nat)
    requires Partitioned(v) && f in v.chains && a < b < |v.chains[f]|
    ensures v.chains[f][a] != v.chains[f][b]
  {
    if v.chains[f][a] == v.chains[f][b] {
      ChainsAreAcyclic(v.table, v.chains[f], a, b);
    }
  }

  /** A file no operation names keeps its chain, and the table every entry of it. */
  lemma {:induction false} UnnamedFileKept(run: seq<Volume>, ops: seq<Op>, eoc: Word, i: nat, f: nat)
    requires IsRun(run, ops, eoc) && IsEoc(eoc) && i < |run|
    requires f in run[0].chains && forall j :: 0 <= j < i ==> ops[j].f != f
    ensures f in run[i].chains && run[i].chains[f] == run[0].chains[f]
    ensures forall k :: k in run[0].chains[f] ==>
              2 <= k < |run[0].table| && k < |run[i].table| && run[i].table[k] == run[0].table[k]
  {
    hide Partitioned, Step, Possible, Readable;
    if i == 0 {
      OwnClustersInTable(run[0], f);
    } else {
      var v, op := run[i - 1], ops[i - 1];
      UnnamedFileKept(run, ops, eoc, i - 1, f);
      EveryVolumeOfEveryRun(run, ops, eoc, i - 1);
      EveryVolumeOfEveryRun(run, ops, eoc, i);
      assert run[i] == Next(v, op, eoc);
      if Readable(v, op) && Possible(v, op) {
        OtherEntriesUntouched(v, op, eoc, f);
      }
    }
  }

  lemma OwnClustersInTable(v: Volume, f: nat)
    requires Partitioned(v) && f in v.chains
    ensures forall k :: k in v.chains[f] ==> 2 <= k < |v.table|
  {
  }

  lemma OtherEntriesUntouched(v: Volume, op: Op, eoc: Word, f: nat)
    requires Partitioned(v) && Readable(v, op) && Possible(v, op) && IsEoc(eoc) && f in v.chains && f != op.f
    ensures f in Step(v, op, eoc).chains && Step(v, op, eoc).chains[f] == v.chains[f]
    ensures |Step(v, op, eoc).table| == |v.table|
    ensures forall k :: k in v.chains[f] ==> 2 <= k < |v.table| && Step(v, op, eoc).table[k] == v.table[k]
  {
    forall k | k in v.chains[f]
      ensures 2 <= k < |v.table| && Step(v, op, eoc).table[k] == v.table[k]
    {
      assert Owns(v, f, k);
      OwnedIsUsed(v, f, k);
      assert !Owns(v, op.f, k);
      TouchesOnlyItsOwn(v, op, eoc, k);
    }
  }

  // ---------- counting free clusters ----------

  function Elements(c: Chain): set<nat> {
    set k | k in c
  }

  lemma {:induction false} DistinctSize(c: Chain)
    requires forall i, j :: 0 <= i < j < |c| ==> c[i] != c[j]
    ensures |Elements(c)| == |c|
  {
    if c != [] {
      var init, last := c[..|c| - 1], c[|c| - 1];
      DistinctSize(init);
      assert c == init + [last];
      assert Elements(c) == Elements(init) + {last};
    }
  }

  lemma ChainSize(t: Table, c: Chain)
    requires TableOk(t) && IsChain(t, c)
    ensures |Elements(c)| == |c|
  {
    forall i, j | 0 <= i < j < |c|
      ensures c[i] != c[j]
    {
      if c[i] == c[j] {
        ChainsAreAcyclic(t, c, i, j);
      }
    }
    DistinctSize(c);
  }

  function FreeGain(v: Volume, op: Op): int
    requires op.Remove? ==> op.f in v.chains
  {
    match op
    case Create(_) => 0
    case Grow(_) => -1
    case Shrink(_) => 1
    case Remove(f) => |v.chains[f]|
  }

  lemma FreeSetAfterGrow(v: Volume, f: nat, eoc: Word)
    requires Partitioned(v) && Possible(v, Grow(f)) && IsEoc(eoc)
    ensures LowestFree(v.table) in FreeSet(v.table)
    ensures FreeSet(Step(v, Grow(f), eoc).table) == FreeSet(v.table) - {LowestFree(v.table)}
  {
    LowestFreeExists(v.table);
    if v.chains[f] != [] {
      LastIsUsed(v.table, v.chains[f]);
    }
  }

  lemma FreeSetAfterShrink(v: Volume, f: nat, eoc: Word)
    requires Partitioned(v) && Possible(v, Shrink(f)) && IsEoc(eoc)
    ensures var last := v.chains[f][|v.chains[f]| - 1];
            last !in FreeSet(v.table) && FreeSet(Step(v, Shrink(f), eoc).table) == FreeSet(v.table) + {last}
  {
    var t, c := v.table, v.chains[f];
    LastIsUsed(t, c);
    LastOccursOnce(t, c);
    assert 1 < |c| ==> t[c[|c| - 2]] == c[|c| - 2 + 1];
  }

  lemma FreeSetAfterRemove(v: Volume, f: nat, eoc: Word)
    requires Partitioned(v) && Possible(v, Remove(f))
    ensures Elements(v.chains[f]) !! FreeSet(v.table)
    ensures FreeSet(Step(v, Remove(f), eoc).table) == FreeSet(v.table) + Elements(v.chains[f])
  {
    forall k | k in Elements(v.chains[f])
      ensures 2 <= k < |v.table| && v.table[k] != 0
    {
      assert Owns(v, f, k);
      OwnedIsUsed(v, f, k);
    }
  }

  /** Growing takes one free cluster, shrinking gives one back, and removing gives back the whole chain. */
  lemma FreeCountAfterStep(v: Volume, op: Op, eoc: Word)
    requires Partitioned(v) && Possible(v, op) && IsEoc(eoc)
    ensures |FreeSet(Step(v, op, eoc).table)| == |FreeSet(v.table)| + FreeGain(v, op)
  {
    match op
    case Create(_) =>
    case Grow(f) => FreeSetAfterGrow(v, f, eoc);
    case Shrink(f) => FreeSetAfterShrink(v, f, eoc);
    case Remove(f) =>
      FreeSetAfterRemove(v, f, eoc);
      if v.chains[f] != [] {
        ChainSize(v.table, v.chains[f]);
      }
  }

  lemma LastIsUsed(t: Table, c: Chain)
    requires IsChain(t, c)
    ensures 2 <= c[|c| - 1] < |t| && t[c[|c| - 1]] != 0
  {
  }

  /** Removing the last cluster undoes linking it, up to which end mark the chain carries. */
  lemma UnlinkUndoesLink(t: Table, c: Chain, eoc: Word)
    requires TableOk(t) && IsChain(t, c) && FreeSet(t) != {} && LowestFree(t) !in c && IsEoc(eoc)
    ensures IsChain(Link(t, c, eoc), c + [LowestFree(t)])
    ensures Unlink(Link(t, c, eoc), c + [LowestFree(t)], eoc) == t[c[|c| - 1] := eoc]
  {
    LowestFreeExists(t);
    LinkedIsChain(t, c, eoc);
    assert c[|c| - 1] in c;
  }

  // ---------- resizing ----------

  /** The file's chain brought to `m` clusters, one at a time. */
  ghost function Resize(v: Volume, f: nat, m: nat, eoc: Word): (r: Volume)
    requires Partitioned(v) && IsEoc(eoc) && f in v.chains && m <= |v.chains[f]| + |FreeSet(v.table)|
    ensures Partitioned(r)
    decreases if m < |v.chains[f]| then |v.chains[f]| - m else m - |v.chains[f]|
  {
    if m == |v.chains[f]| then v
    else
      var op := if m < |v.chains[f]| then Shrink(f) else Grow(f);
      StepKeepsPartition(v, op, eoc);
      FreeCountAfterStep(v, op, eoc);
      Resize(Step(v, op, eoc), f, m, eoc)
  }

  /** A chain `c` brought to `m` clusters keeps its common prefix and grows with free clusters only. */
  ghost predicate ChainResized(c: Chain, r: Chain, m: nat, free: set<nat>) {
    && |r| == m
    && (if m <= |c| then r == c[..m] else r[..|c|] == c)
    && (forall i :: |c| <= i < m ==> r[i] in free)
  }

  /** `r` is `v` with file `f` at `m` clusters, all else kept. */
  ghost predicate Resized(v: Volume, r: Volume, f: nat, m: nat)
    requires f in v.chains
  {
    && |r.table| == |v.table| && r.chains.Keys == v.chains.Keys
    && ChainResized(v.chains[f], r.chains[f], m, FreeSet(v.table))
    && |FreeSet(r.table)| + m == |FreeSet(v.table)| + |v.chains[f]|
    && (forall g :: g in v.chains && g != f ==> r.chains[g] == v.chains[g])
  }

  lemma ShrunkChainResized(c: Chain, r: Chain, m: nat, free: set<nat>)
    requires m < |c| && |r| == m && r == c[..|c| - 1][..m]
    ensures ChainResized(c, r, m, free)
  {
  }

  lemma GrownChainResized(c: Chain, k: nat, r: Chain, m: nat, before: set<nat>, after: set<nat>)
    requires |c| < m && k in before && after <= before && ChainResized(c + [k], r, m, after)
    ensures ChainResized(c, r, m, before)
  {
    var e := r[..|c| + 1];
    assert e == c + [k];
    assert r[..|c|] == e[..|c|] && r[|c|] == e[|c|];
  }

  lemma ShrinkThenResized(v: Volume, r: Volume, f: nat, m: nat, eoc: Word)
    requires Partitioned(v) && IsEoc(eoc) && f in v.chains && m < |v.chains[f]|
    requires Resized(Step(v, Shrink(f), eoc), r, f, m)
    ensures Resized(v, r, f, m)
  {
    FreeCountAfterStep(v, Shrink(f), eoc);
    var c := v.chains[f];
    assert m == |c| - 1 ==> c[..|c| - 1][..m] == c[..m];
    ShrunkChainResized(c, r.chains[f], m, FreeSet(v.table));
  }

  lemma GrowThenResized(v: Volume, r: Volume, f: nat, m: nat, eoc: Word)
    requires Partitioned(v) && IsEoc(eoc) && Possible(v, Grow(f)) && |v.chains[f]| < m
    requires Resized(Step(v, Grow(f), eoc), r, f, m)
    ensures Resized(v, r, f, m)
  {
    FreeCountAfterStep(v, Grow(f), eoc);
    FreeSetAfterGrow(v, f, eoc);
    var w := Step(v, Grow(f), eoc);
    assert w.chains[f] == v.chains[f] + [LowestFree(v.table)];
    GrownChainResized(v.chains[f], LowestFree(v.table), r.chains[f], m, FreeSet(v.table), FreeSet(w.table));
  }

  /**
   * Resizing gives the file exactly `m` clusters, keeps the common prefix of its chain, changes the free count by the
   * difference and leaves every other file alone.
   */
  lemma {:induction false} ResizeOutcome(v: Volume, f: nat, m: nat, eoc: Word)
    requires Partitioned(v) && IsEoc(eoc) && f in v.chains && m <= |v.chains[f]| + |FreeSet(v.table)|
    ensures Resized(v, Resize(v, f, m, eoc), f, m)
    decreases if m < |v.chains[f]| then |v.chains[f]| - m else m - |v.chains[f]|
  {
    var c := v.chains[f];
    if m == |c| {
      assert c[..m] == c;
    } else {
      var op := if m < |c| then Shrink(f) else Grow(f);
      StepKeepsPartition(v, op, eoc);
      FreeCountAfterStep(v, op, eoc);
      ResizeOutcome(Step(v, op, eoc), f, m, eoc);
      if m < |c| {
        ShrinkThenResized(v, Resize(v, f, m, eoc), f, m, eoc);
      } else {
        GrowThenResized(v, Resize(v, f, m, eoc), f, m, eoc);
      }
    }
  }

  /** The free list once its head is taken is the rest of it. */
  lemma {:induction false} FreeListAfterTake(t: Table, r: Table, from: nat, low: nat)
    requires |r| == |t| && 2 <= from <= low < |t| && t[low] == 0 && forall i :: from <= i < low ==> t[i] != 0
    requires forall k :: from <= k < |t| ==> (r[k] == 0 <==> t[k] == 0 && k != low)
    ensures FreeClusters(t, from) == [low] + FreeClusters(r, from)
    decreases low - from
  {
    if from < low {
      FreeListAfterTake(t, r, from + 1, low);
    } else {
      SameFreeList(t, r, low + 1);
    }
  }

  lemma {:induction false} SameFreeList(t: Table, r: Table, from: nat)
    requires |r| == |t| && from <= |t| && forall k :: from <= k < |t| ==> (r[k] == 0 <==> t[k] == 0)
    ensures FreeClusters(r, from) == FreeClusters(t, from)
    decreases |t| - from
  {
    if from < |t| {
      SameFreeList(t, r, from + 1);
    }
  }

  lemma GrowTakesTheHead(v: Volume, f: nat, eoc: Word)
    requires Partitioned(v) && Possible(v, Grow(f)) && IsEoc(eoc)
    ensures var r := Step(v, Grow(f), eoc);
            && |r.table| == |v.table| && f in r.chains
            && FreeClusters(v.table, 2) == [LowestFree(v.table)] + FreeClusters(r.table, 2)
            && r.chains[f] == v.chains[f] + [LowestFree(v.table)]
  {
    var r := Step(v, Grow(f), eoc);
    FreeSetAfterGrow(v, f, eoc);
    LowestFreeExists(v.table);
    assert forall k :: 2 <= k < |v.table| ==> (k in FreeSet(v.table) <==> v.table[k] == 0) && (k in FreeSet(r.table) <==> r.table[k] == 0);
    FreeListAfterTake(v.table, r.table, 2, LowestFree(v.table));
  }

  /** A file that grows gets the first clusters of the free list, in order. */
  lemma {:induction false} ResizeTakesTheLowest(v: Volume, f: nat, m: nat, eoc: Word)
    requires Partitioned(v) && IsEoc(eoc) && f in v.chains && |v.chains[f]| <= m <= |v.chains[f]| + |FreeSet(v.table)|
    ensures var r := Resize(v, f, m, eoc);
            && m - |v.chains[f]| <= |FreeClusters(v.table, 2)| && f in r.chains
            && r.chains[f] == v.chains[f] + FreeClusters(v.table, 2)[..m - |v.chains[f]|]
    decreases m - |v.chains[f]|
  {
    hide Partitioned, IsChain, FreeSet, FreeClusters, LowestFree, Step;
    TableHasTwo(v);
    PartitionedIsReadable(v, Grow(f));
    var c := v.chains[f];
    if |c| < m {
      assert FreeSet(v.table) != {};
      var w := Step(v, Grow(f), eoc);
      StepKeepsPartition(v, Grow(f), eoc);
      TableHasTwo(w);
      FreeCountAfterStep(v, Grow(f), eoc);
      GrowTakesTheHead(v, f, eoc);
      ResizeTakesTheLowest(w, f, m, eoc);
      var rest := FreeClusters(w.table, 2);
      assert ([LowestFree(v.table)] + rest)[..m - |c|] == [LowestFree(v.table)] + rest[..m - |c| - 1];
    } else {
      assert c + FreeClusters(v.table, 2)[..0] == c;
    }
  }

  /** No operation touches the first two entries, of which the second holds the end mark a mount reads. */
  lemma ReservedKept(v: Volume, op: Op, eoc: Word)
    requires Partitioned(v) && Possible(v, op)
    ensures var r := Step(v, op, eoc);
            |r.table| == |v.table| && r.table[0] == v.table[0] && r.table[1] == v.table[1]
  {
    if op.Grow? {
      LowestFreeExists(v.table);
    }
  }

  lemma {:induction false} ResizeKeepsReserved(v: Volume, f: nat, m: nat, eoc: Word)
    requires Partitioned(v) && IsEoc(eoc) && f in v.chains && m <= |v.chains[f]| + |FreeSet(v.table)|
    ensures var r := Resize(v, f, m, eoc);
            |r.table| == |v.table| && r.table[0] == v.table[0] && r.table[1] == v.table[1]
    decreases if m < |v.chains[f]| then |v.chains[f]| - m else m - |v.chains[f]|
  {
    hide Partitioned;
    TableHasTwo(v);
    if m != |v.chains[f]| {
      var op := if m < |v.chains[f]| then Shrink(f) else Grow(f);
      PartitionedIsReadable(v, op);
      StepKeepsPartition(v, op, eoc);
      FreeCountAfterStep(v, op, eoc);
      ReservedKept(v, op, eoc);
      ResizeKeepsReserved(Step(v, op, eoc), f, m, eoc);
    }
  }

  lemma TableHasTwo(v: Volume)
    requires Partitioned(v)
    ensures 2 <= |v.table|
  {
  }

  lemma {:induction false} ReservedInEveryRun(run: seq<Volume>, ops: seq<Op>, eoc: Word, i: nat)
    requires IsRun(run, ops, eoc) && IsEoc(eoc) && i < |run|
    ensures 2 <= |run[i].table| == |run[0].table|
    ensures run[i].table[0] == run[0].table[0] && run[i].table[1] == run[0].table[1]
  {
    hide Partitioned, Step, Possible, Readable;
    EveryVolumeOfEveryRun(run, ops, eoc, i);
    TableHasTwo(run[i]);
    if 0 < i {
      var v, op := run[i - 1], ops[i - 1];
      ReservedInEveryRun(run, ops, eoc, i - 1);
      EveryVolumeOfEveryRun(run, ops, eoc, i - 1);
      assert run[i] == Next(v, op, eoc);
      if Readable(v, op) && Possible(v, op) {
        ReservedKept(v, op, eoc);
      }
    }
  }
}
