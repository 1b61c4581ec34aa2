/** The allocation table as a value: cluster chains, the free set, and what growing, shrinking and removing do to them. */
module FatChains {
  import opened Bytes

  const EOC_FIRST := 0x0FFF_FFF8
  const EOC_LAST := 0x0FFF_FFFF

  predicate IsEoc(n: int) {
    EOC_FIRST <= n <= EOC_LAST
  }

  type Table = seq<Word>
  type Chain = seq<nat>

  /** No cluster number reads as an end-of-chain mark. */
  predicate TableOk(t: Table) {
    2 <= |t| <= EOC_FIRST
  }

  /** The eight end-of-chain marks, none of which is the number of a cluster. */
  lemma EndMarks(t: Table, n: Word)
    requires TableOk(t)
    ensures IsEoc(n) <==> 0x0FFF_FFF8 <= n <= 0x0FFF_FFFF
    ensures IsEoc(n) ==> |t| <= n
  {
  }

  /** The table links the clusters of `c` in order and marks the last one as the end. */
  ghost predicate IsChain(t: Table, c: Chain) {
    && c != []
    && (forall i :: 0 <= i < |c| ==> 2 <= c[i] < |t|)
    && (forall i {:trigger t[c[i]]} :: 0 <= i < |c| - 1 ==> t[c[i]] == c[i + 1])
    && IsEoc(t[c[|c| - 1]])
  }

  /** A chain never comes back to a cluster. */
  lemma ChainsAreAcyclic(t: Table, c: Chain, i: nat, j: nat)
    requires TableOk(t) && IsChain(t, c) && i < |c| && j < |c| && c[i] == c[j]
    ensures i == j
  {
    if i < j {
      SameTail(t, c, i, c, j);
    } else if j < i {
      SameTail(t, c, j, c, i);
    }
  }

  /** Two chains through one cluster end together. */
  lemma {:induction false} SameTail(t: Table, c: Chain, i: nat, d: Chain, j: nat)
    requires TableOk(t) && IsChain(t, c) && IsChain(t, d)
    requires i < |c| && j < |d| && c[i] == d[j]
    ensures c[i..] == d[j..]
    decreases |c| - i
  {
    assert c[i..] == [c[i]] + c[i + 1..] && d[j..] == [d[j]] + d[j + 1..];
    assert i + 1 < |c| ==> t[c[i]] == c[i + 1] && 2 <= c[i + 1] < |t|;
    assert j + 1 < |d| ==> t[d[j]] == d[j + 1] && 2 <= d[j + 1] < |t|;
    if i + 1 < |c| && j + 1 < |d| {
      SameTail(t, c, i + 1, d, j + 1);
    }
  }

  /** The first cluster determines the chain. */
  lemma ChainIsUnique(t: Table, c: Chain, d: Chain)
    requires TableOk(t) && IsChain(t, c) && IsChain(t, d) && c[0] == d[0]
    ensures c == d
  {
    SameTail(t, c, 0, d, 0);
    assert c == c[0..] && d == d[0..];
  }

  // ---------- free clusters ----------

  function FreeSet(t: Table): set<nat> {
    set k: nat | 2 <= k < |t| && t[k] == 0
  }

  /** First free cluster at or after `from`, or the size of the table. */
  function LowestFreeFrom(t: Table, from: nat): (k: nat)
    requires from <= |t|
    ensures from <= k <= |t| && (k < |t| ==> t[k] == 0)
    ensures forall i :: from <= i < k ==> t[i] != 0
    decreases |t| - from
  {
    if from == |t| || t[from] == 0 then from else LowestFreeFrom(t, from + 1)
  }

  function LowestFree(t: Table): nat
    requires TableOk(t)
  {
    LowestFreeFrom(t, 2)
  }

  /** The free list in ascending order. */
  function FreeClusters(t: Table, from: nat): seq<nat>
    requires from <= |t|
    decreases |t| - from
  {
    if from == |t| then []
    else if t[from] == 0 then [from] + FreeClusters(t, from + 1)
    else FreeClusters(t, from + 1)
  }

  lemma {:induction false} FreeListHolds(t: Table, from: nat)
    requires 2 <= from <= |t|
    ensures forall k: nat :: k in FreeClusters(t, from) <==> from <= k < |t| && t[k] == 0
    decreases |t| - from
  {
    if from < |t| {
      FreeListHolds(t, from + 1);
    }
  }

  function FreeSetFrom(t: Table, from: nat): set<nat> {
    set k: nat | from <= k < |t| && t[k] == 0
  }

  lemma {:induction false} FreeListSize(t: Table, from: nat)
    requires from <= |t|
    ensures |FreeClusters(t, from)| == |FreeSetFrom(t, from)|
    decreases |t| - from
  {
    if from < |t| {
      FreeListSize(t, from + 1);
      var above := FreeSetFrom(t, from + 1);
      assert FreeSetFrom(t, from) == if t[from] == 0 then above + {from} else above;
    } else {
      assert FreeSetFrom(t, from) == {};
    }
  }

  lemma {:induction false} FreeListHead(t: Table, from: nat)
    requires from <= |t|
    ensures FreeClusters(t, from) != [] ==> FreeClusters(t, from)[0] == LowestFreeFrom(t, from)
    ensures FreeClusters(t, from) == [] <==> LowestFreeFrom(t, from) == |t|
    decreases |t| - from
  {
    if from < |t| && t[from] != 0 {
      FreeListHead(t, from + 1);
    }
  }

  /** The free list holds each free cluster once, and the allocator takes its head. */
  lemma FreeListIsFreeSet(t: Table)
    requires TableOk(t)
    ensures forall k: nat :: k in FreeClusters(t, 2) <==> k in FreeSet(t)
    ensures |FreeClusters(t, 2)| == |FreeSet(t)|
    ensures if FreeSet(t) == {} then LowestFree(t) == |t|
            else FreeClusters(t, 2) != [] && FreeClusters(t, 2)[0] == LowestFree(t)
  {
    FreeListHolds(t, 2);
    FreeListSize(t, 2);
    FreeListHead(t, 2);
    assert FreeSet(t) == FreeSetFrom(t, 2);
    if FreeClusters(t, 2) != [] {
      assert FreeClusters(t, 2)[0] in FreeClusters(t, 2);
    }
  }

  lemma LowestFreeExists(t: Table)
    requires TableOk(t) && FreeSet(t) != {}
    ensures 2 <= LowestFree(t) < |t| && LowestFree(t) in FreeSet(t)
  {
    var k :| k in FreeSet(t);
  }

  // ---------- table updates ----------

  function Link(t: Table, c: Chain, eoc: Word): Table
    requires TableOk(t) && c != [] && 2 <= c[|c| - 1] < |t| && LowestFree(t) < |t|
  {
    t[c[|c| - 1] := LowestFree(t)][LowestFree(t) := eoc]
  }

  function Unlink(t: Table, c: Chain, eoc: Word): Table
    requires c != [] && forall i :: 0 <= i < |c| ==> 2 <= c[i] < |t|
  {
    if |c| == 1 then t[c[0] := 0] else t[c[|c| - 1] := 0][c[|c| - 2] := eoc]
  }

  function FreeAll(t: Table, c: Chain): (r: Table)
    ensures |r| == |t|
  {
    seq(|t|, k requires 0 <= k < |t| => if k in c then 0 else t[k])
  }

  // ---------- the volume ----------

  /** The table together with the chain of every file; a file is anything that owns clusters, directories included. */
  datatype Volume = Volume(table: Table, chains: map<nat, Chain>)

  ghost predicate Owns(v: Volume, f: nat, k: nat) {
    f in v.chains && k in v.chains[f]
  }

  ghost predicate Owned(v: Volume, k: nat) {
    exists f :: Owns(v, f, k)
  }

  /**
   * Clusters 2 and up are split exactly into the free ones and the pairwise disjoint, acyclic, terminated chains of
   * the files: none shared, none leaked.
   */
  ghost predicate Partitioned(v: Volume) {
    && TableOk(v.table)
    && (forall f :: f in v.chains && v.chains[f] != [] ==> IsChain(v.table, v.chains[f]))
    && (forall f, g, k :: Owns(v, f, k) && Owns(v, g, k) ==> f == g)
    && (forall k: nat {:trigger Owned(v, k)} :: 2 <= k < |v.table| && v.table[k] != 0 ==> Owned(v, k))
  }

  lemma OwnedIsUsed(v: Volume, f: nat, k: nat)
    requires Partitioned(v) && Owns(v, f, k)
    ensures 2 <= k < |v.table| && v.table[k] != 0
  {
    var c := v.chains[f];
    var i :| 0 <= i < |c| && c[i] == k;
    assert i < |c| - 1 ==> v.table[c[i]] == c[i + 1];
  }

  /** File `f` has cluster `k` at place `i` of its chain. */
  ghost predicate OwnsAt(v: Volume, f: nat, i: nat, k: nat) {
    f in v.chains && i < |v.chains[f]| && v.chains[f][i] == k
  }

  /** A cluster is in use exactly when some file has it, and then one file has it, at one place of its chain. */
  lemma FreeOrOwnedOnce(v: Volume, k: nat)
    requires Partitioned(v) && 2 <= k < |v.table|
    ensures v.table[k] != 0 <==> exists f, i: nat :: OwnsAt(v, f, i, k)
    ensures forall f, i: nat, g, j: nat :: OwnsAt(v, f, i, k) && OwnsAt(v, g, j, k) ==> f == g && i == j
  {
    if v.table[k] != 0 {
      assert Owned(v, k);
      var f :| Owns(v, f, k);
      var i :| 0 <= i < |v.chains[f]| && v.chains[f][i] == k;
      assert OwnsAt(v, f, i, k);
    }
    forall f, i: nat | OwnsAt(v, f, i, k)
      ensures Owns(v, f, k) && v.table[k] != 0
    {
      OwnedIsUsed(v, f, k);
    }
    forall f, i: nat, g, j: nat | OwnsAt(v, f, i, k) && OwnsAt(v, g, j, k)
      ensures f == g && i == j
    {
      assert Owns(v, f, k) && Owns(v, g, k);
      ChainsAreAcyclic(v.table, v.chains[f], i, j);
    }
  }

  datatype Op = Create(f: nat) | Grow(f: nat) | Shrink(f: nat) | Remove(f: nat)

  ghost predicate Possible(v: Volume, op: Op) {
    match op
    case Create(f) => f !in v.chains
    case Grow(f) => f in v.chains && FreeSet(v.table) != {}
    case Shrink(f) => f in v.chains && v.chains[f] != []
    case Remove(f) => f in v.chains
  }

  function WithFile(v: Volume, f: nat, t: Table, c: Chain): Volume {
    Volume(t, v.chains[f := c])
  }

  /** The entries the operation works on lie in the table. */
  ghost predicate Readable(v: Volume, op: Op) {
    TableOk(v.table) && (op.f in v.chains ==> forall i :: 0 <= i < |v.chains[op.f]| ==> 2 <= v.chains[op.f][i] < |v.table|)
  }

  ghost function Step(v: Volume, op: Op, eoc: Word): Volume
    requires Readable(v, op) && Possible(v, op)
  {
    match op
    case Create(f) => WithFile(v, f, v.table, [])
    case Grow(f) =>
      var c, free := v.chains[f], LowestFree(v.table);
      LowestFreeExists(v.table);
      if c == [] then WithFile(v, f, v.table[free := eoc], [free])
      else WithFile(v, f, Link(v.table, c, eoc), c + [free])
    case Shrink(f) =>
      var c := v.chains[f];
      WithFile(v, f, Unlink(v.table, c, eoc), c[..|c| - 1])
    case Remove(f) => Volume(FreeAll(v.table, v.chains[f]), v.chains - {f})
  }

  /** A chain whose entries a step leaves alone is still a chain. */
  lemma UntouchedChain(t: Table, r: Table, c: Chain)
    requires IsChain(t, c) && |r| == |t| && forall i :: 0 <= i < |c| ==> r[c[i]] == t[c[i]]
    ensures IsChain(r, c)
  {
  }

  lemma OthersUntouched(v: Volume, op: Op, eoc: Word, g: nat)
    requires Partitioned(v) && Possible(v, op) && IsEoc(eoc)
    requires g in v.chains && g != op.f && v.chains[g] != []
    ensures var r := Step(v, op, eoc);
            g in r.chains && r.chains[g] == v.chains[g] && IsChain(r.table, v.chains[g])
  {
    var r, c := Step(v, op, eoc), v.chains[g];
    forall i | 0 <= i < |c|
      ensures r.table[c[i]] == v.table[c[i]]
    {
      assert Owns(v, g, c[i]);
      OwnedIsUsed(v, g, c[i]);
      TouchesOnlyItsOwn(v, op, eoc, c[i]);
    }
    UntouchedChain(v.table, r.table, c);
  }

  /** A step writes only entries of the file it works on and the lowest free one. */
  lemma TouchesOnlyItsOwn(v: Volume, op: Op, eoc: Word, k: nat)
    requires Partitioned(v) && Possible(v, op) && IsEoc(eoc) && 2 <= k < |v.table|
    requires !Owns(v, op.f, k) && v.table[k] != 0
    ensures Step(v, op, eoc).table[k] == v.table[k]
  {
    if op.f in v.chains && v.chains[op.f] != [] {
      var c := v.chains[op.f];
      assert c[|c| - 1] in c && (1 < |c| ==> c[|c| - 2] in c);
    }
    if op.Grow? {
      LowestFreeExists(v.table);
    }
  }

  lemma LowestFreeIsUnowned(v: Volume, f: nat)
    requires Partitioned(v) && FreeSet(v.table) != {}
    ensures !Owns(v, f, LowestFree(v.table))
  {
    LowestFreeExists(v.table);
    if Owns(v, f, LowestFree(v.table)) {
      OwnedIsUsed(v, f, LowestFree(v.table));
    }
  }

  lemma LastOccursOnce(t: Table, c: Chain)
    requires TableOk(t) && IsChain(t, c)
    ensures forall i :: 0 <= i < |c| - 1 ==> c[i] != c[|c| - 1]
    ensures c[|c| - 1] !in c[..|c| - 1]
  {
    forall i | 0 <= i < |c| && c[i] == c[|c| - 1]
      ensures i == |c| - 1
    {
      ChainsAreAcyclic(t, c, i, |c| - 1);
    }
  }

  lemma LinkedIsChain(t: Table, c: Chain, eoc: Word)
    requires TableOk(t) && IsChain(t, c) && LowestFree(t) < |t| && LowestFree(t) !in c && IsEoc(eoc)
    ensures IsChain(Link(t, c, eoc), c + [LowestFree(t)])
  {
    LastOccursOnce(t, c);
    assert forall i :: 0 <= i < |c| ==> c[i] in c;
  }

  lemma UnlinkedIsChain(t: Table, c: Chain, eoc: Word)
    requires TableOk(t) && IsChain(t, c) && 1 < |c| && IsEoc(eoc)
    ensures IsChain(Unlink(t, c, eoc), c[..|c| - 1])
  {
    LastOccursOnce(t, c);
    forall i | 0 <= i < |c| - 2
      ensures c[i] != c[|c| - 2]
    {
      if c[i] == c[|c| - 2] {
        ChainsAreAcyclic(t, c, i, |c| - 2);
      }
    }
  }

  lemma GrownChain(v: Volume, f: nat, eoc: Word)
    requires Partitioned(v) && Possible(v, Grow(f)) && IsEoc(eoc)
    ensures var r := Step(v, Grow(f), eoc); IsChain(r.table, r.chains[f])
  {
    LowestFreeExists(v.table);
    LowestFreeIsUnowned(v, f);
    var c := v.chains[f];
    if c != [] {
      LinkedIsChain(v.table, c, eoc);
    }
  }

  lemma ShrunkChain(v: Volume, f: nat, eoc: Word)
    requires Partitioned(v) && Possible(v, Shrink(f)) && IsEoc(eoc)
    ensures var r := Step(v, Shrink(f), eoc); r.chains[f] != [] ==> IsChain(r.table, r.chains[f])
  {
    var c := v.chains[f];
    if 1 < |c| {
      UnlinkedIsChain(v.table, c, eoc);
    }
  }

  /** What a file owns after a step it owned before, or it is the cluster the step took from the free ones. */
  lemma OwnershipAfterStep(v: Volume, op: Op, eoc: Word, f: nat, k: nat)
    requires Partitioned(v) && Possible(v, op) && Owns(Step(v, op, eoc), f, k)
    ensures Owns(v, f, k) || (op.Grow? && f == op.f && k == LowestFree(v.table))
  {
  }

  lemma StepDisjoint(v: Volume, op: Op, eoc: Word, f: nat, g: nat, k: nat)
    requires Partitioned(v) && Possible(v, op)
    requires Owns(Step(v, op, eoc), f, k) && Owns(Step(v, op, eoc), g, k)
    ensures f == g
  {
    OwnershipAfterStep(v, op, eoc, f, k);
    OwnershipAfterStep(v, op, eoc, g, k);
    if op.Grow? {
      LowestFreeIsUnowned(v, f);
      LowestFreeIsUnowned(v, g);
    }
  }

  lemma StepLeaksNothing(v: Volume, op: Op, eoc: Word, k: nat)
    requires Partitioned(v) && Possible(v, op) && IsEoc(eoc)
    requires 2 <= k < |v.table| && Step(v, op, eoc).table[k] != 0
    ensures Owned(Step(v, op, eoc), k)
  {
    var r := Step(v, op, eoc);
    if op.Grow? && k == LowestFree(v.table) {
      assert r.chains[op.f][|r.chains[op.f]| - 1] == k;
      assert Owns(r, op.f, k);
    } else {
      if op.Grow? {
        LowestFreeExists(v.table);
      }
      NonzeroBefore(v, op, eoc, k);
      assert Owned(v, k);
      var f :| Owns(v, f, k);
      KeptOwnership(v, op, eoc, f, k);
    }
  }

  lemma NonzeroBefore(v: Volume, op: Op, eoc: Word, k: nat)
    requires Partitioned(v) && Possible(v, op) && 2 <= k < |v.table| && Step(v, op, eoc).table[k] != 0
    requires op.Grow? ==> k != LowestFree(v.table)
    ensures v.table[k] != 0
  {
    if op.Grow? {
      LowestFreeExists(v.table);
    }
    if op.f in v.chains && v.chains[op.f] != [] {
      var c := v.chains[op.f];
      assert c[|c| - 1] in c && (1 < |c| ==> c[|c| - 2] in c);
      assert Owns(v, op.f, k) ==> v.table[k] != 0 by {
        if Owns(v, op.f, k) {
          OwnedIsUsed(v, op.f, k);
        }
      }
    }
  }

  lemma KeptOwnership(v: Volume, op: Op, eoc: Word, f: nat, k: nat)
    requires Partitioned(v) && Possible(v, op) && IsEoc(eoc) && Owns(v, f, k)
    requires 2 <= k < |v.table| && Step(v, op, eoc).table[k] != 0
    ensures Owns(Step(v, op, eoc), f, k)
  {
    var r := Step(v, op, eoc);
    if f == op.f && op.Shrink? {
      var c := v.chains[f];
      LastOccursOnce(v.table, c);
      var i :| 0 <= i < |c| && c[i] == k;
      assert i < |c| - 1 ==> r.chains[f][i] == k;
      if 1 < |c| {
        assert c[|c| - 2] != c[|c| - 1];
      }
    }
  }

  /** Every operation keeps the volume partitioned. */
  lemma StepKeepsPartition(v: Volume, op: Op, eoc: Word)
    requires Partitioned(v) && Possible(v, op) && IsEoc(eoc)
    ensures Partitioned(Step(v, op, eoc))
  {
    var r := Step(v, op, eoc);
    forall f | f in r.chains && r.chains[f] != []
      ensures IsChain(r.table, r.chains[f])
    {
      if f != op.f {
        OthersUntouched(v, op, eoc, f);
      } else if op.Grow? {
        GrownChain(v, f, eoc);
      } else if op.Shrink? {
        ShrunkChain(v, f, eoc);
      }
    }
    forall f, g, k | Owns(r, f, k) && Owns(r, g, k)
      ensures f == g
    {
      StepDisjoint(v, op, eoc, f, g, k);
    }
    forall k: nat | 2 <= k < |r.table| && r.table[k] != 0
      ensures Owned(r, k)
    {
      StepLeaksNothing(v, op, eoc, k);
    }
  }
}
