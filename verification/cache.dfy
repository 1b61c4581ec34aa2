/** The block cache of an open file: what its blocks say about the disk, and the list of blocks itself. */
module FileCaches {
  import opened Bytes
  import opened Disks

  /** A cluster held in memory, when it was last used, and whether the disk has yet to see it. */
  datatype Block = Block(cluster: nat, data: seq<byte>, stamp: int, modified: bool)

  datatype Option<T> = None | Some(value: T)

  // ---------- searching the list ----------

  ghost predicate FoundAt(blocks: seq<Block>, k: nat, i: nat) {
    && i <= |blocks| && (i < |blocks| ==> blocks[i].cluster == k)
    && forall j :: 0 <= j < i ==> blocks[j].cluster != k
  }

  lemma {:induction false} SearchEnds(blocks: seq<Block>, k: nat, n: nat) returns (i: nat)
    requires n <= |blocks| && forall j :: 0 <= j < n ==> blocks[j].cluster != k
    ensures FoundAt(blocks, k, i)
    decreases |blocks| - n
  {
    if n == |blocks| || blocks[n].cluster == k {
      i := n;
    } else {
      i := SearchEnds(blocks, k, n + 1);
    }
  }

  lemma SearchEndsSomewhere(blocks: seq<Block>, k: nat)
    ensures exists i: nat :: FoundAt(blocks, k, i)
  {
    var i := SearchEnds(blocks, k, 0);
  }

  /** Position of the first block of cluster `k`, or the length of the list. */
  ghost function Find(blocks: seq<Block>, k: nat): (i: nat)
    ensures FoundAt(blocks, k, i)
  {
    SearchEndsSomewhere(blocks, k);
    var i: nat :| FoundAt(blocks, k, i);
    i
  }

  ghost predicate Holds(blocks: seq<Block>, k: nat) {
    Find(blocks, k) < |blocks|
  }

  /** Among the first `n` blocks, `i` is older than `now`, none is older than it, and none in front of it is as old. */
  ghost predicate IsLru(blocks: seq<Block>, n: nat, now: int, i: nat) {
    && i < n <= |blocks| && blocks[i].stamp < now
    && (forall j :: 0 <= j < n ==> blocks[i].stamp <= blocks[j].stamp)
    && (forall j :: 0 <= j < i ==> blocks[i].stamp < blocks[j].stamp)
  }

  /** The search returns nothing exactly when no block is older than the clock. */
  function LruOf(blocks: seq<Block>, n: nat, now: int): (r: Option<nat>)
    requires n <= |blocks|
    ensures r.None? <==> forall j :: 0 <= j < n ==> now <= blocks[j].stamp
    ensures r.Some? ==> IsLru(blocks, n, now, r.value)
  {
    if n == 0 then None
    else
      var before := LruOf(blocks, n - 1, now);
      if now - blocks[n - 1].stamp > (if before.Some? then now - blocks[before.value].stamp else 0) then Some(n - 1) else before
  }

  function Lru(blocks: seq<Block>, now: int): (r: Option<nat>)
    ensures r.None? <==> forall j :: 0 <= j < |blocks| ==> now <= blocks[j].stamp
    ensures r.Some? ==> IsLru(blocks, |blocks|, now, r.value)
  {
    LruOf(blocks, |blocks|, now)
  }

  // ---------- one cluster through the cache ----------

  /** A cache over a disk; `bytes` is the configured size of the cache, 0 for none. */
  datatype State = State(bytes: nat, blocks: seq<Block>, disk: Data) {
    function Capacity(): nat {
      bytes / CLUSTER_BYTES
    }
  }

  /** The cache has room for as many blocks of 4096 bytes as fit its size. */
  lemma CapacityIs(s: State, m: nat)
    ensures 4096 * s.Capacity() <= s.bytes && (4096 * m <= s.bytes ==> m <= s.Capacity())
  {
  }

  /** What a reader sees of cluster `k`: its block if there is one, else the disk. */
  ghost function Seen(s: State, k: nat): seq<byte>
    requires k in s.disk
  {
    var i := Find(s.blocks, k);
    if i < |s.blocks| then s.blocks[i].data else s.disk[k]
  }

  ghost function View(s: State): (v: Data)
    ensures v.Keys == s.disk.Keys
  {
    map k | k in s.disk :: Seen(s, k)
  }

  /** The view is determined cluster by cluster. */
  lemma ViewIsPointwise(s: State, r: State, k: nat, data: seq<byte>)
    requires r.disk.Keys == s.disk.Keys && k in s.disk
    requires forall j :: j in s.disk ==> Seen(r, j) == if j == k then data else Seen(s, j)
    ensures View(r) == View(s)[k := data]
  {
    assert forall j :: j in s.disk ==> View(r)[j] == Seen(r, j) && View(s)[j] == Seen(s, j);
  }

  ghost predicate Distinct(blocks: seq<Block>) {
    forall i, j :: 0 <= i < j < |blocks| ==> blocks[i].cluster != blocks[j].cluster
  }

  ghost predicate WellFormed(s: State) {
    && (s.bytes == 0 ==> s.blocks == []) && |s.blocks| <= s.Capacity() && Distinct(s.blocks)
    && (forall i :: 0 <= i < |s.blocks| ==> s.blocks[i].cluster in s.disk && |s.blocks[i].data| == CLUSTER_BYTES)
    && (forall k :: k in s.disk ==> |s.disk[k]| == CLUSTER_BYTES)
  }

  /** Every block not marked modified equals the disk. */
  ghost predicate Coherent(s: State) {
    WellFormed(s) && forall i :: 0 <= i < |s.blocks| && !s.blocks[i].modified ==> s.blocks[i].data == s.disk[s.blocks[i].cluster]
  }

  ghost function Touched(s: State, k: nat, now: int): State
    requires Holds(s.blocks, k)
  {
    var i := Find(s.blocks, k);
    s.(blocks := s.blocks[i := s.blocks[i].(stamp := now)])
  }

  /** There is room for one more block, or one old enough to be replaced. */
  ghost predicate CanInsert(s: State, now: int) {
    s.bytes == 0 || |s.blocks| < s.Capacity() || Lru(s.blocks, now).Some?
  }

  /** Inserts a block for a cluster that has none, as clean; a modified block it replaces goes back to disk. */
  ghost function Inserted(s: State, k: nat, data: seq<byte>, now: int): State
    requires CanInsert(s, now)
  {
    var block := Block(k, data, now, false);
    if s.bytes == 0 then s
    else if |s.blocks| < s.Capacity() then s.(blocks := s.blocks + [block])
    else
      var i := Lru(s.blocks, now).value;
      var out := s.blocks[i];
      s.(blocks := s.blocks[i := block], disk := if out.modified then s.disk[out.cluster := out.data] else s.disk)
  }

  /** Reading cluster `k`: a hit refreshes its block, a miss inserts what the disk holds. */
  ghost function ReadOf(s: State, k: nat, now: int): State
    requires k in s.disk && (Holds(s.blocks, k) || CanInsert(s, now))
  {
    if Holds(s.blocks, k) then Touched(s, k, now) else Inserted(s, k, s.disk[k], now)
  }

  /** Writing part of cluster `k`: a hit changes the block, a miss inserts the changed cluster or, uncached, writes it. */
  ghost function WriteOf(s: State, k: nat, offset: nat, piece: seq<byte>, now: int): State
    requires k in s.disk && (Holds(s.blocks, k) || CanInsert(s, now)) && offset + |piece| <= |Seen(s, k)|
  {
    if Holds(s.blocks, k) then
      var i := Find(s.blocks, k);
      s.(blocks := s.blocks[i := Block(k, Splice(s.blocks[i].data, offset, piece), now, true)])
    else
      var data := Splice(s.disk[k], offset, piece);
      if s.bytes == 0 then s.(disk := s.disk[k := data]) else Inserted(s, k, data, now)
  }

  function FlushOf(s: State): State
    decreases |s.blocks|
  {
    if s.blocks == [] then s
    else
      var b := s.blocks[0];
      FlushOf(s.(blocks := s.blocks[1..], disk := if b.modified then s.disk[b.cluster := b.data] else s.disk))
  }

  // ---------- where blocks are found after the list changes ----------

  lemma FindIs(blocks: seq<Block>, k: nat, i: nat)
    requires FoundAt(blocks, k, i)
    ensures Find(blocks, k) == i
  {
    var f := Find(blocks, k);
  }

  lemma FindUpdated(blocks: seq<Block>, i: nat, b: Block, k: nat)
    requires i < |blocks| && b.cluster == blocks[i].cluster
    ensures Find(blocks[i := b], k) == Find(blocks, k)
  {
    FindIs(blocks[i := b], k, Find(blocks, k));
  }

  lemma FindAppended(blocks: seq<Block>, b: Block, k: nat)
    requires !Holds(blocks, b.cluster)
    ensures Find(blocks + [b], k) ==
            if k == b.cluster then |blocks| else if Holds(blocks, k) then Find(blocks, k) else |blocks| + 1
  {
    FindIs(blocks + [b], k, if k == b.cluster then |blocks| else if Holds(blocks, k) then Find(blocks, k) else |blocks| + 1);
  }

  lemma FindReplaced(blocks: seq<Block>, i: nat, b: Block, k: nat)
    requires Distinct(blocks) && i < |blocks| && !Holds(blocks, b.cluster)
    ensures Find(blocks, blocks[i].cluster) == i
    ensures Find(blocks[i := b], k) ==
            if k == b.cluster then i else if k == blocks[i].cluster then |blocks| else Find(blocks, k)
  {
    FindIs(blocks, blocks[i].cluster, i);
    FindIs(blocks[i := b], k, if k == b.cluster then i else if k == blocks[i].cluster then |blocks| else Find(blocks, k));
  }

  lemma FindInTail(blocks: seq<Block>, k: nat)
    requires Distinct(blocks) && blocks != []
    ensures Find(blocks[1..], k) == if k == blocks[0].cluster then |blocks| - 1 else Find(blocks, k) - 1
  {
    FindIs(blocks[1..], k, if k == blocks[0].cluster then |blocks| - 1 else Find(blocks, k) - 1);
  }

  // ---------- insertion ----------

  lemma InsertedSeen(s: State, k: nat, data: seq<byte>, now: int, j: nat)
    requires Coherent(s) && !Holds(s.blocks, k) && CanInsert(s, now) && s.bytes != 0 && j in s.disk && k in s.disk
    ensures j in Inserted(s, k, data, now).disk
    ensures Seen(Inserted(s, k, data, now), j) == if j == k then data else Seen(s, j)
  {
    var block := Block(k, data, now, false);
    if |s.blocks| < s.Capacity() {
      FindAppended(s.blocks, block, j);
    } else {
      FindReplaced(s.blocks, Lru(s.blocks, now).value, block, j);
    }
  }

  /** No block has cluster `k` when the search does not find it. */
  lemma NotHeld(blocks: seq<Block>, k: nat)
    requires !Holds(blocks, k)
    ensures forall i :: 0 <= i < |blocks| ==> blocks[i].cluster != k
  {
  }

  lemma AppendedWellFormed(s: State, block: Block)
    requires WellFormed(s) && block.cluster in s.disk && !Holds(s.blocks, block.cluster) && |block.data| == CLUSTER_BYTES
    requires |s.blocks| < s.Capacity() && s.bytes != 0
    ensures var r := s.(blocks := s.blocks + [block]);
            WellFormed(r) && (Coherent(s) && !block.modified ==> (Coherent(r) <==> block.data == s.disk[block.cluster]))
  {
    var r := s.(blocks := s.blocks + [block]);
    NotHeld(s.blocks, block.cluster);
    assert forall i :: 0 <= i < |r.blocks| ==> r.blocks[i] == if i < |s.blocks| then s.blocks[i] else block;
    assert r.blocks[|s.blocks|] == block;
  }

  lemma ReplacedWellFormed(s: State, i: nat, block: Block)
    requires WellFormed(s) && block.cluster in s.disk && !Holds(s.blocks, block.cluster) && |block.data| == CLUSTER_BYTES
    requires i < |s.blocks| && !block.modified
    ensures var out := s.blocks[i];
            var r := s.(blocks := s.blocks[i := block], disk := if out.modified then s.disk[out.cluster := out.data] else s.disk);
            WellFormed(r) && (Coherent(s) ==> (Coherent(r) <==> block.data == s.disk[block.cluster]))
  {
    var out := s.blocks[i];
    var r := s.(blocks := s.blocks[i := block], disk := if out.modified then s.disk[out.cluster := out.data] else s.disk);
    NotHeld(s.blocks, block.cluster);
    assert r.blocks[i] == block && out.cluster != block.cluster;
    forall j | 0 <= j < |s.blocks| && j != i
      ensures r.blocks[j] == s.blocks[j] && r.disk[s.blocks[j].cluster] == s.disk[s.blocks[j].cluster]
    {
      assert s.blocks[j].cluster != out.cluster;
    }
  }

  /** A miss inserts its block without hiding or losing anything; it is coherent exactly when it brings the disk's data. */
  lemma InsertKeepsView(s: State, k: nat, data: seq<byte>, now: int)
    requires Coherent(s) && k in s.disk && !Holds(s.blocks, k) && |data| == CLUSTER_BYTES && CanInsert(s, now) && s.bytes != 0
    ensures var r := Inserted(s, k, data, now);
            WellFormed(r) && View(r) == View(s)[k := data] && (Coherent(r) <==> data == s.disk[k])
  {
    var r, block := Inserted(s, k, data, now), Block(k, data, now, false);
    if |s.blocks| < s.Capacity() {
      AppendedWellFormed(s, block);
    } else {
      ReplacedWellFormed(s, Lru(s.blocks, now).value, block);
    }
    forall j | j in s.disk
      ensures Seen(r, j) == if j == k then data else Seen(s, j)
    {
      InsertedSeen(s, k, data, now, j);
    }
    ViewIsPointwise(s, r, k, data);
  }

  // ---------- the operations ----------

  lemma UpdatedSeen(s: State, k: nat, block: Block, j: nat)
    requires Holds(s.blocks, k) && block.cluster == k && k in s.disk && j in s.disk
    ensures Seen(s.(blocks := s.blocks[Find(s.blocks, k) := block]), j) == if j == k then block.data else Seen(s, j)
  {
    FindUpdated(s.blocks, Find(s.blocks, k), block, j);
  }

  lemma UpdatedWellFormed(s: State, i: nat, block: Block)
    requires WellFormed(s) && i < |s.blocks| && block.cluster == s.blocks[i].cluster && |block.data| == CLUSTER_BYTES
    ensures var r := s.(blocks := s.blocks[i := block]);
            && WellFormed(r)
            && (Coherent(s) && (block.modified || block == s.blocks[i].(stamp := block.stamp)) ==> Coherent(r))
  {
    var r := s.(blocks := s.blocks[i := block]);
    assert forall j :: 0 <= j < |s.blocks| ==> r.blocks[j] == if j == i then block else s.blocks[j];
  }

  /** Changing a block in place shows in the view at its cluster and nowhere else. */
  lemma UpdatedBlock(s: State, k: nat, block: Block)
    requires WellFormed(s) && Holds(s.blocks, k) && block.cluster == k && |block.data| == CLUSTER_BYTES
    ensures var i := Find(s.blocks, k);
            var r := s.(blocks := s.blocks[i := block]);
            && WellFormed(r) && View(r) == View(s)[k := block.data]
            && (Coherent(s) && (block.modified || block == s.blocks[i].(stamp := block.stamp)) ==> Coherent(r))
  {
    var i := Find(s.blocks, k);
    UpdatedWellFormed(s, i, block);
    forall j | j in s.disk
      ensures Seen(s.(blocks := s.blocks[i := block]), j) == if j == k then block.data else Seen(s, j)
    {
      UpdatedSeen(s, k, block, j);
    }
    ViewIsPointwise(s, s.(blocks := s.blocks[i := block]), k, block.data);
  }

  /** A read changes nothing a reader can see and keeps the cache coherent. */
  lemma ReadChangesNothing(s: State, k: nat, now: int)
    requires Coherent(s) && k in s.disk && (Holds(s.blocks, k) || CanInsert(s, now))
    ensures Coherent(ReadOf(s, k, now)) && View(ReadOf(s, k, now)) == View(s)
  {
    if Holds(s.blocks, k) {
      var b := s.blocks[Find(s.blocks, k)];
      UpdatedBlock(s, k, b.(stamp := now));
      assert View(s)[k] == b.data;
    } else if s.bytes != 0 {
      InsertKeepsView(s, k, s.disk[k], now);
      assert View(s)[k] == s.disk[k];
    }
  }

  lemma UncachedWrite(s: State, k: nat, data: seq<byte>)
    requires Coherent(s) && s.bytes == 0 && k in s.disk && |data| == CLUSTER_BYTES
    ensures var r := s.(disk := s.disk[k := data]);
            Coherent(r) && View(r) == View(s)[k := data]
  {
  }

  /**
   * A write always shows in the view; it leaves the cache coherent exactly when there is no cache, the block is
   * cached already, or the write changes nothing, since a miss inserts its block as clean.
   */
  lemma WriteCoherentIff(s: State, k: nat, offset: nat, piece: seq<byte>, now: int)
    requires Coherent(s) && k in s.disk && (Holds(s.blocks, k) || CanInsert(s, now)) && offset + |piece| <= CLUSTER_BYTES
    ensures var r := WriteOf(s, k, offset, piece, now);
            && WellFormed(r) && View(r) == View(s)[k := Splice(View(s)[k], offset, piece)]
            && (Coherent(r) <==> s.bytes == 0 || Holds(s.blocks, k) || Splice(s.disk[k], offset, piece) == s.disk[k])
  {
    if Holds(s.blocks, k) {
      var b := s.blocks[Find(s.blocks, k)];
      assert View(s)[k] == b.data;
      UpdatedBlock(s, k, Block(k, Splice(b.data, offset, piece), now, true));
    } else {
      assert View(s)[k] == s.disk[k];
      if s.bytes == 0 {
        UncachedWrite(s, k, Splice(s.disk[k], offset, piece));
      } else {
        InsertKeepsView(s, k, Splice(s.disk[k], offset, piece), now);
      }
    }
  }

  function FlushedFirst(s: State): State
    requires s.blocks != []
  {
    var b := s.blocks[0];
    s.(blocks := s.blocks[1..], disk := if b.modified then s.disk[b.cluster := b.data] else s.disk)
  }

  lemma FlushFirstSeen(s: State, j: nat)
    requires Coherent(s) && s.blocks != [] && j in s.disk
    ensures j in FlushedFirst(s).disk && Seen(FlushedFirst(s), j) == Seen(s, j)
  {
    FindInTail(s.blocks, j);
  }

  lemma FlushFirstCoherent(s: State)
    requires Coherent(s) && s.blocks != []
    ensures Coherent(FlushedFirst(s)) && FlushedFirst(s).disk.Keys == s.disk.Keys
  {
    var r, b := FlushedFirst(s), s.blocks[0];
    assert forall i :: 0 <= i < |r.blocks| ==> r.blocks[i] == s.blocks[i + 1] && s.blocks[i + 1].cluster != b.cluster;
  }

  lemma FlushFirst(s: State)
    requires Coherent(s) && s.blocks != []
    ensures Coherent(FlushedFirst(s)) && View(FlushedFirst(s)) == View(s)
  {
    FlushFirstCoherent(s);
    var b := s.blocks[0];
    forall j | j in s.disk
      ensures Seen(FlushedFirst(s), j) == if j == b.cluster then Seen(s, b.cluster) else Seen(s, j)
    {
      FlushFirstSeen(s, j);
    }
    ViewIsPointwise(s, FlushedFirst(s), b.cluster, Seen(s, b.cluster));
    assert View(s)[b.cluster] == Seen(s, b.cluster);
  }

  /** After a flush the cache is empty and the disk is what readers saw. */
  lemma {:induction false} FlushWritesView(s: State)
    requires Coherent(s)
    ensures FlushOf(s).blocks == [] && FlushOf(s).disk == View(s) && FlushOf(s).bytes == s.bytes && Coherent(FlushOf(s))
    decreases |s.blocks|
  {
    if s.blocks != [] {
      FlushFirst(s);
      FlushWritesView(FlushedFirst(s));
    }
  }

  lemma {:induction false} CleanBlockIsNotFlushed(s: State, k: nat)
    requires k in s.disk && forall i :: 0 <= i < |s.blocks| && s.blocks[i].cluster == k ==> !s.blocks[i].modified
    ensures k in FlushOf(s).disk && FlushOf(s).disk[k] == s.disk[k]
    decreases |s.blocks|
  {
    if s.blocks != [] {
      var r := FlushedFirst(s);
      assert forall i :: 0 <= i < |r.blocks| ==> r.blocks[i] == s.blocks[i + 1];
      CleanBlockIsNotFlushed(r, k);
    }
  }

  /** What a miss leaves for its cluster: a clean block, over a disk that has not changed there. */
  lemma MissLeavesClean(s: State, k: nat, data: seq<byte>, now: int)
    requires Coherent(s) && k in s.disk && !Holds(s.blocks, k) && CanInsert(s, now) && s.bytes != 0
    ensures var r := Inserted(s, k, data, now);
            && k in r.disk && r.disk[k] == s.disk[k]
            && forall i :: 0 <= i < |r.blocks| && r.blocks[i].cluster == k ==> !r.blocks[i].modified
  {
    NotHeld(s.blocks, k);
  }

  /** A flush after a write brings it to the disk exactly when the write kept the cache coherent; else it is lost. */
  lemma WriteIsDurableIff(s: State, k: nat, offset: nat, piece: seq<byte>, now: int)
    requires Coherent(s) && k in s.disk && (Holds(s.blocks, k) || CanInsert(s, now)) && offset + |piece| <= CLUSTER_BYTES
    ensures var r := WriteOf(s, k, offset, piece, now);
            FlushOf(r).disk == View(r) <==> s.bytes == 0 || Holds(s.blocks, k) || Splice(s.disk[k], offset, piece) == s.disk[k]
  {
    hide Inserted, Splice, CanInsert;
    var r := WriteOf(s, k, offset, piece, now);
    WriteCoherentIff(s, k, offset, piece, now);
    if Coherent(r) {
      FlushWritesView(r);
    } else {
      assert View(s)[k] == s.disk[k];
      MissLeavesClean(s, k, Splice(s.disk[k], offset, piece), now);
      CleanBlockIsNotFlushed(r, k);
      assert FlushOf(r).disk[k] == s.disk[k] != View(r)[k];
    }
  }

  // ---------- runs ----------

  datatype Op = Read(cluster: nat, now: int) | Write(cluster: nat, offset: nat, piece: seq<byte>, now: int) | Flush

  /** The operations the cache is right for: any read, writes that hit or bypass it, and flushes. */
  ghost predicate Allowed(s: State, op: Op) {
    match op
    case Read(k, now) => k in s.disk && (Holds(s.blocks, k) || CanInsert(s, now))
    case Write(k, offset, piece, _) => k in s.disk && offset + |piece| <= |Seen(s, k)| && (s.bytes == 0 || Holds(s.blocks, k))
    case Flush => true
  }

  ghost function Step(s: State, op: Op): State
    requires Allowed(s, op)
  {
    match op
    case Read(k, now) => ReadOf(s, k, now)
    case Write(k, offset, piece, now) => WriteOf(s, k, offset, piece, now)
    case Flush => FlushOf(s)
  }

  /** What the operation does to a plain array of clusters with no cache in front. */
  function Plain(v: Data, op: Op): Data {
    match op
    case Write(k, offset, piece, _) =>
      if k in v && offset + |piece| <= |v[k]| then v[k := Splice(v[k], offset, piece)] else v
    case _ => v
  }

  function PlainRun(v: Data, ops: seq<Op>): Data {
    if ops == [] then v else Plain(PlainRun(v, ops[..|ops| - 1]), ops[|ops| - 1])
  }

  ghost predicate IsRun(run: seq<State>, ops: seq<Op>) {
    && |run| == |ops| + 1 && Coherent(run[0])
    && forall i :: 0 <= i < |ops| ==> Allowed(run[i], ops[i]) && run[i + 1] == Step(run[i], ops[i])
  }

  lemma SeenIsCluster(s: State, k: nat)
    requires WellFormed(s) && k in s.disk
    ensures |Seen(s, k)| == CLUSTER_BYTES
  {
  }

  /**
   * Over every run from a coherent cache: its clusters stay distinct and within capacity, every clean block equals the
   * disk, and it behaves like no cache at all; a flush leaves the disk up to date.
   */
  lemma {:induction false} CacheIsInvisible(run: seq<State>, ops: seq<Op>, i: nat)
    requires IsRun(run, ops) && i < |run|
    ensures Distinct(run[i].blocks) && |run[i].blocks| <= run[i].Capacity() && run[i].bytes == run[0].bytes
    ensures Coherent(run[i]) && View(run[i]) == PlainRun(View(run[0]), ops[..i])
    ensures 0 < i && ops[i - 1].Flush? ==> run[i].disk == PlainRun(View(run[0]), ops[..i])
  {
    if 0 < i {
      CacheIsInvisible(run, ops, i - 1);
      var s, op := run[i - 1], ops[i - 1];
      assert run[i] == Step(s, op);
      assert ops[..i][..i - 1] == ops[..i - 1] && ops[..i][i - 1] == op;
      match op
      case Read(k, now) => ReadChangesNothing(s, k, now);
      case Write(k, offset, piece, now) => SeenIsCluster(s, k); WriteCoherentIff(s, k, offset, piece, now);
      case Flush => FlushWritesView(s); FlushWritesView(run[i]);
    }
  }
}
