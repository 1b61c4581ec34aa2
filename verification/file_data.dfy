/** Reading, writing and flushing an open file through its block cache. */
module FileData {
  import opened Bytes
  import opened Disks
  import opened FatChains
  import opened FatRuns
  import opened Fat32
  import opened FileBytes
  import opened Piecewise
  import FileCaches
  import opened CacheBlocks

  // ---------- the open file ----------

  class OpenFile {
    const fs: FileSystem
    const id: nat
    const cache: FileCache
    /** The record's own copies of the directory entry's first cluster and size. */
    var first: nat
    var size: nat
    var clock: int

    constructor (fs: FileSystem, id: nat, cacheBytes: nat)
      requires fs.Valid() && id in fs.entries && (cacheBytes == 0 || CLUSTER_BYTES <= cacheBytes)
      ensures Valid() && this.fs == fs && this.id == id && fresh(cache) && cache.blocks == []
    {
      this.fs, this.id, clock := fs, id, 0;
      first, size := fs.entries[id].first, fs.entries[id].size;
      cache := new FileCache(cacheBytes);
      new;
      ChainOnDisk();
    }

    /** The clusters of the file are on the disk. */
    lemma ChainOnDisk()
      requires fs.Valid() && id in fs.entries
      ensures forall i :: 0 <= i < |fs.chains[id]| ==> fs.disk.layout.HasCluster(fs.chains[id][i])
      ensures forall i :: 0 <= i < |fs.chains[id]| ==> fs.chains[id][i] in fs.disk.clusters
    {
    }

    lemma ChainIsSeen()
      requires Valid()
      ensures id in fs.chains && HasChain(FileCaches.View(State()), fs.chains[id])
    {
      ViewHasChain(State(), fs.chains[id], clock);
    }

    /** What the chain walks need of a valid file. */
    lemma ChainIsThere()
      requires Valid()
      ensures Backed() && fs.fat.Valid() && id in fs.chains
      ensures fs.chains[id] != [] ==> IsChain(fs.fat.table[..], fs.chains[id]) && first == fs.chains[id][0]
      ensures |fs.chains[id]| == ClustersFor(size)
    {
    }

    /** What a walk of the chain needs, whatever the cache holds. */
    lemma ChainIsBacked()
      requires Backed()
      ensures fs.fat.Valid() && id in fs.chains && |fs.chains[id]| == ClustersFor(size)
      ensures fs.chains[id] != [] ==> IsChain(fs.fat.table[..], fs.chains[id]) && first == fs.chains[id][0]
    {
    }

    ghost function State(): FileCaches.State
      reads fs.disk, cache, cache.blocks
    {
      cache.Over(fs.disk.clusters)
    }

    ghost predicate Backed()
      reads this, fs, fs.fat, fs.disk, fs.fat.table, fs.fat.sectors
    {
      fs.Valid() && id in fs.entries && size == fs.entries[id].size && first == fs.entries[id].first
    }

    /** What every operation keeps, also a write the cache then loses. */
    ghost predicate Usable()
      reads this, fs, fs.fat, fs.disk, fs.fat.table, fs.fat.sectors, cache, cache.blocks
    {
      Backed() && cache.Valid() && Fit(State(), fs.chains[id], clock)
    }

    ghost predicate Valid()
      reads this, fs, fs.fat, fs.disk, fs.fat.table, fs.fat.sectors, cache, cache.blocks
    {
      Backed() && cache.Valid() && Sound(State(), fs.chains[id], clock)
    }

    /** What the file holds, seen through the cache. */
    ghost function Contents(): seq<byte>
      reads this, fs, fs.fat, fs.disk, fs.fat.table, fs.fat.sectors, cache, cache.blocks
      requires Valid()
    {
      ViewHasChain(State(), fs.chains[id], clock);
      ClustersForIsCeiling(size, 0);
      BytesOf(FileCaches.View(State()), fs.chains[id], size)
    }

    /** The time, which never stands still. */
    method Tick() returns (now: int)
      modifies this`clock
      ensures now == clock == old(clock) + 1
    {
      clock := clock + 1;
      now := clock;
    }

    method WriteBack(replaced: Replaced)
      requires fs.Linked()
      requires replaced.Replaced? ==> fs.disk.layout.HasCluster(replaced.cluster) && |replaced.data| == CLUSTER_BYTES
      modifies fs.disk, fs.disk.network
      ensures fs.Linked()
      ensures fs.disk.clusters ==
              if replaced.Replaced? then old(fs.disk.clusters)[replaced.cluster := replaced.data] else old(fs.disk.clusters)
    {
      if replaced.Replaced? {
        fs.StoreCluster(replaced.cluster, replaced.data);
      }
    }

    /** The file system and the cache fit together. */
    ghost predicate Mounted()
      reads this, fs, fs.fat, fs.disk, fs.fat.table, fs.fat.sectors, cache
    {
      fs.Linked() && cache.Valid()
    }

    /** A miss: the cluster as the disk holds it, inserted into the cache. */
    method FetchFromDisk(k: nat, now: int) returns (data: seq<byte>)
      requires Mounted() && FileCaches.WellFormed(State()) && fs.disk.layout.HasCluster(k)
      requires !FileCaches.Holds(cache.Blocks(), k) && FileCaches.CanInsert(State(), now)
      modifies cache, cache.blocks, fs.disk, fs.disk.network
      ensures Mounted() && forall i :: 0 <= i < |cache.blocks| ==> cache.blocks[i] in old(cache.blocks) || fresh(cache.blocks[i])
      ensures data == old(fs.disk.clusters)[k]
      ensures State() == FileCaches.Inserted(old(State()), k, data, now)
    {
      var buffer := fs.disk.ReadCluster(k);
      data := buffer[..];
      StoreInCache(k, data, now);
    }

    /** Inserts a cluster that has no block, writing back the block it puts out. */
    method StoreInCache(k: nat, data: seq<byte>, now: int)
      requires Mounted() && FileCaches.WellFormed(State())
      requires !FileCaches.Holds(cache.Blocks(), k) && FileCaches.CanInsert(State(), now)
      modifies cache, cache.blocks, fs.disk, fs.disk.network
      ensures Mounted() && forall i :: 0 <= i < |cache.blocks| ==> cache.blocks[i] in old(cache.blocks) || fresh(cache.blocks[i])
      ensures State() == FileCaches.Inserted(old(State()), k, data, now)
    {
      hide FileSystem.Linked, FileCaches.WellFormed;
      ghost var s := State();
      EvictedFits(s, now);
      var replaced := cache.WriteBlock(k, data, now);
      WriteBack(replaced);
    }

    lemma EvictedFits(s: FileCaches.State, now: int)
      requires fs.Linked() && s.disk == fs.disk.clusters && FileCaches.WellFormed(s) && FileCaches.CanInsert(s, now)
      ensures var out := Evicted(s, now);
              out.Replaced? ==> fs.disk.layout.HasCluster(out.cluster) && |out.data| == CLUSTER_BYTES
    {
    }

    /** One cluster read through the cache. */
    method FetchThrough(k: nat, now: int) returns (data: seq<byte>)
      requires Mounted() && FileCaches.WellFormed(State()) && fs.disk.layout.HasCluster(k)
      requires FileCaches.CanInsert(State(), now)
      modifies cache, cache.blocks, fs.disk, fs.disk.network
      ensures Mounted() && forall i :: 0 <= i < |cache.blocks| ==> cache.blocks[i] in old(cache.blocks) || fresh(cache.blocks[i])
      ensures State() == FileCaches.ReadOf(old(State()), k, now)
      ensures data == FileCaches.Seen(old(State()), k)
    {
      var block := cache.ReadBlock(k, now);
      if block != null {
        data := block.data;
      } else {
        data := FetchFromDisk(k, now);
      }
    }

    /** A cluster of a valid file can be read and written through the cache. */
    lemma ReadyFor(k: nat)
      requires Valid()
      ensures id in fs.chains && Mounted() && FileCaches.Coherent(State())
      ensures k in fs.chains[id] ==>
        && fs.disk.layout.HasCluster(k) && k in fs.disk.clusters && |FileCaches.View(State())[k]| == CLUSTER_BYTES
        && FileCaches.Seen(State(), k) == FileCaches.View(State())[k]
    {
      ChainOnDisk();
      ChainIsSeen();
    }

    /** The contents of one cluster of the file: from its block, or from the disk into a new block. */
    method FetchCluster(k: nat) returns (data: seq<byte>)
      requires Valid() && k in fs.chains[id]
      modifies this`clock, cache, cache.blocks, fs.disk, fs.disk.network
      ensures Valid() && forall i :: 0 <= i < |cache.blocks| ==> cache.blocks[i] in old(cache.blocks) || fresh(cache.blocks[i])
      ensures FileCaches.View(State()) == old(FileCaches.View(State()))
      ensures k in old(State()).disk && data == old(FileCaches.View(State()))[k] && |data| == CLUSTER_BYTES
      ensures SameOutside(old(State()), State(), fs.chains[id])
    {
      hide FileCaches.ReadOf, FileCaches.Coherent, FileCaches.View, Sound, SameOutside;
      hide FileSystem.Accounted, FileSystem.Linked;
      ReadyFor(k);
      ghost var s, before := State(), clock;
      var now := Tick();
      ReadIsSound(s, fs.chains[id], before, k, now);
      data := FetchThrough(k, now);
    }

    static lemma HeldIsCluster(s: FileCaches.State, k: nat)
      requires FileCaches.WellFormed(s)
      ensures k in s.disk ==> |FileCaches.Seen(s, k)| == CLUSTER_BYTES
      ensures FileCaches.Holds(s.blocks, k) ==> |s.blocks[FileCaches.Find(s.blocks, k)].data| == CLUSTER_BYTES
    {
    }

    /** One piece of a cluster written through the cache, hit or miss. */
    method StoreThrough(k: nat, offset: nat, piece: seq<byte>, now: int)
      requires Mounted() && FileCaches.WellFormed(State()) && fs.disk.layout.HasCluster(k)
      requires FileCaches.CanInsert(State(), now) && offset + |piece| <= CLUSTER_BYTES
      modifies cache, cache.blocks, fs.disk, fs.disk.network
      ensures Mounted() && forall i :: 0 <= i < |cache.blocks| ==> cache.blocks[i] in old(cache.blocks) || fresh(cache.blocks[i])
      ensures State() == FileCaches.WriteOf(old(State()), k, offset, piece, now)
    {
      hide FileSystem.Linked, Splice, FileCaches.WellFormed, FileCaches.CanInsert, FileCaches.Inserted;
      HeldIsCluster(State(), k);
      ghost var i := FileCaches.Find(cache.Blocks(), k);
      var block := cache.ReadBlock(k, now);
      if block != null {
        cache.Overwrite(block, i, offset, piece);
      } else {
        StoreMiss(k, offset, piece, now);
      }
    }

    method StoreMiss(k: nat, offset: nat, piece: seq<byte>, now: int)
      requires Mounted() && FileCaches.WellFormed(State()) && fs.disk.layout.HasCluster(k)
      requires !FileCaches.Holds(cache.Blocks(), k) && FileCaches.CanInsert(State(), now) && offset + |piece| <= CLUSTER_BYTES
      modifies cache, cache.blocks, fs.disk, fs.disk.network
      ensures Mounted() && forall i :: 0 <= i < |cache.blocks| ==> cache.blocks[i] in old(cache.blocks) || fresh(cache.blocks[i])
      ensures State() == FileCaches.WriteOf(old(State()), k, offset, piece, now)
    {
      var buffer := fs.disk.ReadCluster(k);
      var data := Splice(buffer[..], offset, piece);
      StoreInCache(k, data, now);
      if cache.bytes == 0 {
        fs.StoreCluster(k, data);
      }
    }

    /** One piece of the file written, whether its cluster is cached or not. */
    method StorePiece(k: nat, offset: nat, piece: seq<byte>)
      requires Usable() && k in fs.chains[id] && offset + |piece| <= CLUSTER_BYTES
      modifies this`clock, cache, cache.blocks, fs.disk, fs.disk.network
      ensures Usable() && clock == old(clock) + 1
      ensures State() == PieceWritten(old(State()), fs.chains[id], old(clock), Piece(k, offset, piece))
      ensures forall i :: 0 <= i < |cache.blocks| ==> cache.blocks[i] in old(cache.blocks) || fresh(cache.blocks[i])
    {
      hide FileCaches.WriteOf, FileCaches.View, FileCaches.Holds, Fit, FileSystem.Accounted, FileSystem.Linked;
      ReadyToStore(k);
      ghost var s, before := State(), clock;
      var now := Tick();
      WriteStaysFit(s, fs.chains[id], before, k, offset, piece, now);
      StoreThrough(k, offset, piece, now);
    }

    lemma ReadyToStore(k: nat)
      requires Usable()
      ensures id in fs.chains && Mounted() && FileCaches.WellFormed(State())
      ensures k in fs.chains[id] ==> fs.disk.layout.HasCluster(k) && k in fs.disk.clusters
    {
      ChainOnDisk();
    }

    /** The chain read forward from the first cluster. */
    method SkipClusters(steps: nat) returns (k: nat)
      requires Backed() && steps < |fs.chains[id]|
      ensures k == fs.chains[id][steps]
    {
      hide FileSystem.Accounted;
      ChainIsBacked();
      k := first;
      for i := 0 to steps
        invariant k == fs.chains[id][i]
      {
        k := fs.fat.NextLinked(k, fs.chains[id], i);
      }
    }

    /** Reads `count` clusters of the file, from the one numbered `skip` on, into one buffer. */
    method GatherClusters(skip: nat, count: nat) returns (buffer: array<byte>)
      requires Valid() && skip < |fs.chains[id]| && skip + count <= |fs.chains[id]|
      modifies this`clock, cache, cache.blocks, fs.disk, fs.disk.network
      ensures Valid() && fresh(buffer) && buffer.Length == CLUSTER_BYTES * count
      ensures forall i :: 0 <= i < |cache.blocks| ==> cache.blocks[i] in old(cache.blocks) || fresh(cache.blocks[i])
      ensures FileCaches.View(State()) == old(FileCaches.View(State()))
      ensures HasChain(FileCaches.View(State()), fs.chains[id])
      ensures Gathered(FileCaches.View(State()), fs.chains[id], skip, buffer[..])
      ensures SameOutside(old(State()), State(), fs.chains[id])
    {
      hide FileCaches.View, Gathered, Valid, State, SameOutside;
      ChainIsThere();
      ghost var s, view, chain := State(), FileCaches.View(State()), fs.chains[id];
      SameOutsideSelf(s, chain);
      ChainIsSeen();
      buffer := new byte[CLUSTER_BYTES * count](_ => 0);
      var k := SkipClusters(skip);
      GatheredNothing(view, chain, skip);
      for j := 0 to count
        invariant Valid() && FileCaches.View(State()) == view && fs.chains[id] == chain
        invariant forall i :: 0 <= i < |cache.blocks| ==> cache.blocks[i] in old(cache.blocks) || fresh(cache.blocks[i])
        invariant Gathered(view, chain, skip, buffer[..CLUSTER_BYTES * j])
        invariant j < count ==> k == chain[skip + j]
        invariant SameOutside(s, State(), chain)
      {
        ghost var before := State();
        k := GatherOne(buffer, skip, j, k);
        SameOutsideOn(s, before, State(), chain);
      }
      assert buffer[..CLUSTER_BYTES * count] == buffer[..];
    }

    /** Adds one cluster to the buffer. */
    method GatherHere(buffer: array<byte>, skip: nat, j: nat, k: nat)
      requires Valid() && skip + j < |fs.chains[id]| && k == fs.chains[id][skip + j] && CLUSTER_BYTES * (j + 1) <= buffer.Length
      requires HasChain(FileCaches.View(State()), fs.chains[id])
      requires Gathered(FileCaches.View(State()), fs.chains[id], skip, buffer[..CLUSTER_BYTES * j])
      modifies this`clock, cache, cache.blocks, fs.disk, fs.disk.network, buffer
      ensures Valid() && FileCaches.View(State()) == old(FileCaches.View(State()))
      ensures forall i :: 0 <= i < |cache.blocks| ==> cache.blocks[i] in old(cache.blocks) || fresh(cache.blocks[i])
      ensures Gathered(old(FileCaches.View(State())), fs.chains[id], skip, buffer[..CLUSTER_BYTES * (j + 1)])
      ensures SameOutside(old(State()), State(), fs.chains[id])
    {
      hide FileCaches.View, Gathered, Valid, State, HasChain, SameOutside;
      ChainIsThere();
      ghost var view, chain, before := FileCaches.View(State()), fs.chains[id], buffer[..CLUSTER_BYTES * j];
      var data := FetchCluster(k);
      CopyCluster(buffer, CLUSTER_BYTES * j, data);
      ghost var after := buffer[..CLUSTER_BYTES * (j + 1)];
      assert after[..CLUSTER_BYTES * j] == before && after[CLUSTER_BYTES * j..] == data;
      GatherOneMore(view, chain, skip, j, before, after);
    }

    /** Adds one cluster to the buffer and steps to the next one. */
    method GatherOne(buffer: array<byte>, skip: nat, j: nat, k: nat) returns (next: nat)
      requires Valid() && skip + j < |fs.chains[id]| && k == fs.chains[id][skip + j] && CLUSTER_BYTES * (j + 1) <= buffer.Length
      requires HasChain(FileCaches.View(State()), fs.chains[id])
      requires Gathered(FileCaches.View(State()), fs.chains[id], skip, buffer[..CLUSTER_BYTES * j])
      modifies this`clock, cache, cache.blocks, fs.disk, fs.disk.network, buffer
      ensures Valid() && FileCaches.View(State()) == old(FileCaches.View(State()))
      ensures forall i :: 0 <= i < |cache.blocks| ==> cache.blocks[i] in old(cache.blocks) || fresh(cache.blocks[i])
      ensures Gathered(old(FileCaches.View(State())), fs.chains[id], skip, buffer[..CLUSTER_BYTES * (j + 1)])
      ensures skip + j + 1 < |fs.chains[id]| ==> next == fs.chains[id][skip + j + 1]
      ensures SameOutside(old(State()), State(), fs.chains[id])
    {
      hide FileCaches.View, Gathered, Valid, State, HasChain, SameOutside;
      GatherHere(buffer, skip, j, k);
      ChainIsThere();
      next := fs.fat.NextLinked(k, fs.chains[id], skip + j);
    }

    static method CopyCluster(buffer: array<byte>, at: nat, data: seq<byte>)
      requires at + |data| <= buffer.Length
      modifies buffer
      ensures buffer[..at] == old(buffer[..at]) && buffer[at..at + |data|] == data
    {
      forall i | 0 <= i < |data| {
        buffer[at + i] := data[i];
      }
    }

    /**
     * Reads at most `length` bytes from `offset`, cut at the end of the file. Where the cluster count falls short the
     * code copies on past the end of its buffer: `beyond` is what lies there.
     */
    method Read(offset: nat, length: nat, beyond: seq<byte>) returns (data: seq<byte>)
      requires Valid() && length <= |beyond|
      modifies this`clock, cache, cache.blocks, fs.disk, fs.disk.network
      ensures Valid() && Contents() == old(Contents()) && SameOutside(old(State()), State(), fs.chains[id])
      ensures size <= offset ==> data == []
      ensures offset < size ==> data == ReadFrom(Contents(), offset, Clipped(offset, length, size), beyond)
      ensures offset + length <= size ==> |data| == length
      ensures offset < size < offset + length ==> |data| == size - offset
      ensures offset + |data| <= size || data == []
      ensures data != [] && offset % 4096 + |data| <= 4096 * ((|data| + 4095) / 4096) ==>
                data == Contents()[offset..offset + |data|]
    {
      hide FileCaches.View, FileCaches.Coherent, Gathered, Sound, FileSystem.Accounted, FileSystem.Linked;
      hide BytesOf, ReadFrom, Stored, SameOutside;
      ContentsSize();
      if offset < size {
        ReadInNumbers(Contents(), offset, Clipped(offset, length, size), beyond);
      }
      ChainIsThere();
      SameOutsideSelf(State(), fs.chains[id]);
      var n := Clipped(offset, length, size);
      if size <= offset {
        return [];
      }
      NothingRead(Contents(), offset, beyond);
      if n == 0 {
        return [];
      }
      RangeStaysInChain(offset, n, size);
      ClustersForIsCeiling(size, 0);
      var buffer := GatherClusters(offset / CLUSTER_BYTES, ClusterCount(n));
      var from := offset % CLUSTER_BYTES;
      ReadFromBuffer(FileCaches.View(State()), fs.chains[id], size, offset, n, buffer[..], beyond);
      var memory := buffer[..] + beyond;
      data := memory[from..from + n];
    }

    /** Every cluster the code goes through has a block. */
    ghost predicate AllCached(offset: nat, n: nat)
      reads this, fs, fs.disk, cache, cache.blocks
      requires id in fs.chains
    {
      HeldRange(State(), fs.chains[id], offset, n)
    }

    lemma ChainIsUsable()
      requires Usable()
      ensures Backed() && fs.fat.Valid() && id in fs.chains && |fs.chains[id]| == ClustersFor(size)
      ensures fs.chains[id] != [] ==> IsChain(fs.fat.table[..], fs.chains[id]) && first == fs.chains[id][0]
      ensures Fit(State(), fs.chains[id], clock)
    {
    }

    lemma AllCachedIs(offset: nat, n: nat)
      requires id in fs.chains
      ensures AllCached(offset, n) == HeldRange(State(), fs.chains[id], offset, n) && State().bytes == cache.bytes
    {
    }

    /** Stores the `j`-th piece of a write. */
    method WritePiece(k: nat, j: nat, offset: nat, data: seq<byte>, done: nat) returns (more: nat)
      requires Usable() && Inside(fs.chains[id], size, offset, |data|)
      requires j < ClusterCount(|data|) && done == Done(offset, |data|, j)
      requires offset / CLUSTER_BYTES + j < |fs.chains[id]| && k == fs.chains[id][offset / CLUSTER_BYTES + j]
      modifies this`clock, cache, cache.blocks, fs.disk, fs.disk.network
      ensures Usable() && clock == old(clock) + 1 && more == Done(offset, |data|, j + 1)
      ensures State() == PieceWritten(old(State()), fs.chains[id], old(clock), PieceAt(fs.chains[id], size, offset, data, j))
      ensures forall b :: 0 <= b < |cache.blocks| ==> cache.blocks[b] in old(cache.blocks) || fresh(cache.blocks[b])
    {
      hide Done, Fit, Usable, State, PieceWritten, Inside;
      ChainIsUsable();
      PieceBounds(offset, |data|, j);
      PieceOk(offset, |data|, j);
      var left := |data| - done;
      var position := offset + done;
      var inCluster := position % CLUSTER_BYTES;
      var length := if left > CLUSTER_BYTES - inCluster then CLUSTER_BYTES - inCluster else left;
      more := done + length;
      StorePiece(k, inCluster, data[done..more]);
    }

    /** Stores the `j`-th piece of a write and steps to the next cluster. */
    method WriteNext(k: nat, j: nat, offset: nat, data: seq<byte>, done: nat) returns (next: nat, more: nat)
      requires Usable() && Inside(fs.chains[id], size, offset, |data|)
      requires j < ClusterCount(|data|) && done == Done(offset, |data|, j)
      requires offset / CLUSTER_BYTES + j < |fs.chains[id]| && k == fs.chains[id][offset / CLUSTER_BYTES + j]
      modifies this`clock, cache, cache.blocks, fs.disk, fs.disk.network
      ensures Usable() && clock == old(clock) + 1 && more == Done(offset, |data|, j + 1)
      ensures State() == PieceWritten(old(State()), fs.chains[id], old(clock), PieceAt(fs.chains[id], size, offset, data, j))
      ensures offset / CLUSTER_BYTES + j + 1 < |fs.chains[id]| ==> next == fs.chains[id][offset / CLUSTER_BYTES + j + 1]
      ensures forall b :: 0 <= b < |cache.blocks| ==> cache.blocks[b] in old(cache.blocks) || fresh(cache.blocks[b])
    {
      hide Done, Fit, Usable, State, PieceWritten, PieceAt, Inside;
      more := WritePiece(k, j, offset, data, done);
      ChainIsUsable();
      next := fs.fat.NextLinked(k, fs.chains[id], offset / CLUSTER_BYTES + j);
    }

    /** Writes inside the file, cluster by cluster, whatever the cache holds. */
    method WriteClusters(offset: nat, data: seq<byte>)
      requires Usable() && offset + |data| <= size && Inside(fs.chains[id], size, offset, |data|) && Distinct(fs.chains[id])
      modifies this`clock, cache, cache.blocks, fs.disk, fs.disk.network
      ensures Usable() && clock == old(clock) + ClusterCount(|data|)
      ensures State() == WritesOf(old(State()), fs.chains[id], old(clock), PiecesOf(fs.chains[id], size, offset, data))
      ensures forall b :: 0 <= b < |cache.blocks| ==> cache.blocks[b] in old(cache.blocks) || fresh(cache.blocks[b])
    {
      hide Done, Fit, Usable, State, PieceWritten, PieceAt, PiecesOf, Distinct, Inside, ClusterCount, PiecesFit, WritesOf, Midway;
      ChainIsUsable();
      ghost var s, chain, before := State(), fs.chains[id], clock;
      ghost var pieces := PiecesOf(chain, size, offset, data);
      MidwayStart(s, chain, before, pieces);
      if data == [] {
        NothingToWrite();
        MidwayEnd(s, s, chain, before, pieces);
        return;
      }
      RangeFits(chain, size, offset, |data|);
      var k := SkipClusters(offset / CLUSTER_BYTES);
      var done := 0;
      for j := 0 to ClusterCount(|data|)
        invariant Usable() && done == Done(offset, |data|, j) && clock == before + j
        invariant j < ClusterCount(|data|) ==> k == chain[offset / CLUSTER_BYTES + j]
        invariant Midway(s, State(), chain, before, pieces, j)
        invariant forall b :: 0 <= b < |cache.blocks| ==> cache.blocks[b] in old(cache.blocks) || fresh(cache.blocks[b])
      {
        MidwayStep(s, State(), chain, before, pieces, j);
        k, done := WriteNext(k, j, offset, data, done);
      }
      MidwayEnd(s, State(), chain, before, pieces);
    }

    lemma NothingToWrite()
      ensures ClusterCount(0) == 0
    {
    }

    lemma ReadyToWrite(offset: nat, n: nat)
      requires Valid() && offset + n <= size
      ensures Usable() && Sound(State(), fs.chains[id], clock)
      ensures Inside(fs.chains[id], size, offset, n) && Distinct(fs.chains[id])
      ensures HasChain(FileCaches.View(State()), fs.chains[id]) && size <= CLUSTER_BYTES * |fs.chains[id]|
      ensures Contents() == BytesOf(FileCaches.View(State()), fs.chains[id], size)
    {
      ChainFits();
      ChainIsSeen();
    }

    /** What a file that was sound before a write, and is usable after it, holds then. */
    lemma WriteOutcome(start: FileCaches.State, before: int, offset: nat, data: seq<byte>, base: seq<byte>)
      requires Usable() && Inside(fs.chains[id], size, offset, |data|) && Distinct(fs.chains[id])
      requires Sound(start, fs.chains[id], before) && HasChain(FileCaches.View(start), fs.chains[id])
      requires size <= CLUSTER_BYTES * |fs.chains[id]| && base == BytesOf(FileCaches.View(start), fs.chains[id], size)
      requires State() == WritesOf(start, fs.chains[id], before, PiecesOf(fs.chains[id], size, offset, data))
      requires clock == before + ClusterCount(|data|)
      ensures id in fs.chains && SameOutside(start, State(), fs.chains[id])
      ensures Stored(offset, |data|) <= |data|
      ensures var pieces := PiecesOf(fs.chains[id], size, offset, data);
              && (AllSafe(start, fs.chains[id], before, pieces)
                  <==> Valid() && FileCaches.View(State()) == PlainWrites(FileCaches.View(start), pieces))
              && (AllSafe(start, fs.chains[id], before, pieces)
                  ==> Valid() && Contents() == Splice(base, offset, data[..Stored(offset, |data|)]))
    {
      hide Fit, FileCaches.Coherent, FileCaches.View, BytesOf, Splice, PiecesOf, WritesOf, AllSafe, PlainWrites, Distinct;
      hide FileSystem.Accounted, FileSystem.Linked;
      ChainIsBacked();
      WholeWriteIff(start, fs.chains[id], before, PiecesOf(fs.chains[id], size, offset, data));
      PlainWritesBytes(FileCaches.View(start), fs.chains[id], size, offset, data);
    }

    lemma ContentsSize()
      requires Valid()
      ensures |Contents()| == size
    {
    }

    /** Every other file keeps its entry and its chain. */
    ghost predicate OthersKept(entries: map<nat, DirEntry>, chains: map<nat, Chain>)
      reads this, fs
    {
      && fs.entries.Keys == entries.Keys && fs.chains.Keys == chains.Keys
      && (forall g :: g in entries && g != id ==> fs.entries[g] == entries[g])
      && (forall g :: g in chains && g != id ==> fs.chains[g] == chains[g])
    }

    /** The truncation behind a growing write, seen from the open file. */
    method GrowChain(newSize: nat)
      requires Backed() && size < newSize < MAX_SIZE && first != 0
      requires ClustersFor(newSize) <= |fs.chains[id]| + |FreeSet(fs.fat.table[..])|
      modifies this`size, fs, fs.fat.table, fs.fat.sectors, fs.disk, fs.disk.network
      ensures Backed() && size == newSize && old(fs.chains[id]) <= fs.chains[id]
      ensures newSize <= CLUSTER_BYTES * |old(fs.chains[id])| ==> fs.chains[id] == old(fs.chains[id])
      ensures fs.disk.clusters == Zeroed(old(fs.disk.clusters), fs.chains[id][|old(fs.chains[id])|..])
      ensures OthersKept(old(fs.entries), old(fs.chains))
    {
      hide FirstFree, FileSystem.Linked, Partitioned, Resize;
      ghost var chain := fs.chains[id];
      SizesOrdered(size, newSize);
      ClustersForIsCeiling(newSize, |chain|);
      size := fs.Truncate(id, newSize);
      ExtendedChain(chain, fs.chains[id]);
      ZeroedTwice(fs.disk.clusters, [], []);
    }

    /** Extends a non-empty file; what the new clusters hold is zero, and nothing cached is out of date. */
    method Extend(newSize: nat)
      requires Valid() && size < newSize < MAX_SIZE && first != 0
      requires ClustersFor(newSize) <= |fs.chains[id]| + |FreeSet(fs.fat.table[..])|
      modifies this`size, fs, fs.fat.table, fs.fat.sectors, fs.disk, fs.disk.network
      ensures Valid() && size == newSize && id in fs.chains
      ensures newSize <= CLUSTER_BYTES * |old(fs.chains[id])| ==> fs.chains[id] == old(fs.chains[id])
      ensures |Contents()| == newSize && Contents()[..old(size)] == old(Contents())
      ensures forall k :: CLUSTER_BYTES * |old(fs.chains[id])| <= k < newSize ==> Contents()[k] == 0
      ensures old(fs.chains[id]) <= fs.chains[id] && OthersKept(old(fs.entries), old(fs.chains))
      ensures State() == Grown(old(State()), old(fs.chains[id]), fs.chains[id])
    {
      hide FileCaches.View, FileSystem.Valid, BytesOf;
      ghost var s, oldSize := State(), size;
      ChainFits();
      ghost var chain := fs.chains[id];
      ChainIsSeen();
      GrowChain(newSize);
      ChainFits();
      ExtensionIsSound(s, chain, fs.chains[id], clock);
      ExtendedBytes(s, chain, fs.chains[id], clock, oldSize, newSize);
    }

    /** A backed file's chain is long enough, on the disk, and free of repeats. */
    lemma ChainFits()
      requires Backed()
      ensures id in fs.chains && size <= CLUSTER_BYTES * |fs.chains[id]|
      ensures forall i :: 0 <= i < |fs.chains[id]| ==> fs.chains[id][i] in fs.disk.clusters
      ensures forall a, b :: 0 <= a < b < |fs.chains[id]| ==> fs.chains[id][a] != fs.chains[id][b]
    {
      ChainOnDisk();
      var chain := fs.chains[id];
      forall a, b | 0 <= a < b < |chain|
        ensures chain[a] != chain[b]
      {
        if chain[a] == chain[b] {
          ChainsAreAcyclic(fs.fat.table[..], chain, a, b);
        }
      }
    }

    /**
     * Writes inside the file. Every piece is stored; the cache shows them all and loses none exactly when each was safe
     * at its turn, and then the file holds the data, as far as the cluster count covers it.
     */
    method WriteInside(offset: nat, data: seq<byte>)
      requires Valid() && offset + |data| <= size
      modifies this`clock, cache, cache.blocks, fs.disk, fs.disk.network
      ensures Usable() && Stored(offset, |data|) <= |data|
      ensures Inside(fs.chains[id], size, offset, |data|) && Distinct(fs.chains[id])
      ensures Sound(old(State()), fs.chains[id], old(clock))
      ensures State() == WritesOf(old(State()), fs.chains[id], old(clock), PiecesOf(fs.chains[id], size, offset, data))
      ensures AllSafe(old(State()), fs.chains[id], old(clock), PiecesOf(fs.chains[id], size, offset, data)) <==>
                Valid() && FileCaches.View(State())
                           == PlainWrites(old(FileCaches.View(State())), PiecesOf(fs.chains[id], size, offset, data))
      ensures AllSafe(old(State()), fs.chains[id], old(clock), PiecesOf(fs.chains[id], size, offset, data)) ==>
                Valid() && Contents() == Splice(old(Contents()), offset, data[..Stored(offset, |data|)])
      ensures AllSafe(old(State()), fs.chains[id], old(clock), PiecesOf(fs.chains[id], size, offset, data))
              && offset % 4096 + |data| <= 4096 * ((|data| + 4095) / 4096) ==>
                Valid() && Contents() == Splice(old(Contents()), offset, data)
      ensures SameOutside(old(State()), State(), fs.chains[id])
      ensures forall b :: 0 <= b < |cache.blocks| ==> cache.blocks[b] in old(cache.blocks) || fresh(cache.blocks[b])
    {
      hide Valid, Contents, Usable, Splice, Fit, WritesOf, AllSafe, PiecesOf, Inside, Distinct, PlainWrites, Stored;
      hide FileCaches.View, FileCaches.Coherent, HasChain, BytesOf, State;
      ghost var start, before, base := State(), clock, Contents();
      ReadyToWrite(offset, |data|);
      WriteClusters(offset, data);
      WholeOfIt(offset, data);
      WriteOutcome(start, before, offset, data, base);
    }

    /**
     * Writes `data` at `offset`, extending the file first when it ends earlier. `start` is the state once extended, and
     * `base` the file then: the old bytes, and zeros in new clusters. Every piece is stored; the cache shows them all and
     * loses none exactly when each was safe at its turn, and then the file holds the data, as far as the cluster count
     * covers it. Growth from empty is not covered.
     */
    method Write(offset: nat, data: seq<byte>) returns (written: nat, ghost base: seq<byte>, ghost start: FileCaches.State)
      requires Valid() && offset + |data| < MAX_SIZE
      requires size < offset + |data| ==>
                 first != 0 && ClustersFor(offset + |data|) <= |fs.chains[id]| + |FreeSet(fs.fat.table[..])|
      modifies this`size, this`clock, fs, fs.fat.table, fs.fat.sectors, fs.disk, fs.disk.network, cache, cache.blocks
      ensures Usable() && written == |data|
      ensures size == if old(size) < offset + |data| then offset + |data| else old(size)
      ensures |base| == size && base[..old(size)] == old(Contents())
      ensures forall k :: CLUSTER_BYTES * |old(fs.chains[id])| <= k < size ==> base[k] == 0
      ensures old(fs.chains[id]) <= fs.chains[id] && OthersKept(old(fs.entries), old(fs.chains))
      ensures start == Grown(old(State()), old(fs.chains[id]), fs.chains[id]) && Sound(start, fs.chains[id], old(clock))
      ensures Inside(fs.chains[id], size, offset, |data|) && Distinct(fs.chains[id]) && Stored(offset, |data|) <= |data|
      ensures State() == WritesOf(start, fs.chains[id], old(clock), PiecesOf(fs.chains[id], size, offset, data))
      ensures AllSafe(start, fs.chains[id], old(clock), PiecesOf(fs.chains[id], size, offset, data)) <==>
                Valid() && FileCaches.View(State())
                           == PlainWrites(FileCaches.View(start), PiecesOf(fs.chains[id], size, offset, data))
      ensures AllSafe(start, fs.chains[id], old(clock), PiecesOf(fs.chains[id], size, offset, data)) ==>
                Valid() && Contents() == Splice(base, offset, data[..Stored(offset, |data|)])
      ensures AllSafe(start, fs.chains[id], old(clock), PiecesOf(fs.chains[id], size, offset, data))
              && offset % 4096 + |data| <= 4096 * ((|data| + 4095) / 4096) ==>
                Valid() && Contents() == Splice(base, offset, data)
      ensures fs.disk.clusters.Keys == old(fs.disk.clusters).Keys
      ensures forall k :: k in old(fs.disk.clusters) && k !in fs.chains[id] ==>
                k in fs.disk.clusters && fs.disk.clusters[k] == old(fs.disk.clusters)[k]
      ensures cache.bytes == 0 || (old(AllCached(offset, |data|)) && fs.chains[id] == old(fs.chains[id])) ==>
                AllSafe(start, fs.chains[id], old(clock), PiecesOf(fs.chains[id], size, offset, data))
    {
      hide Valid, Contents, Usable, Splice, Fit, WritesOf, AllSafe, PiecesOf, Inside, Distinct, PlainWrites, Stored;
      hide FileCaches.View, FileCaches.Coherent, State, SameOutside, Sound, BytesOf, FileSystem.Accounted, FileSystem.Linked;
      ChainIsThere();
      DiskIsItsState();
      ghost var s, chain, before := State(), fs.chains[id], clock;
      AllCachedIs(offset, |data|);
      ContentsSize();
      if size < offset + |data| {
        Extend(offset + |data|);
      } else {
        ClustersForIsCeiling(size, 0);
        GrownNot(s, chain);
      }
      base, start := Contents(), State();
      ContentsSize();
      WriteInside(offset, data);
      written := |data|;
      CachedIsSafe(s, start, chain, fs.chains[id], before, size, offset, data);
      OutsideKept(s, start, State(), chain, fs.chains[id]);
      DiskIsItsState();
    }

    /**
     * Another open file, whose cache nobody touched, is as good as before and holds the bytes it held, after any
     * operation on this one that keeps the other files' entries, their chains and the disk outside this one's chain.
     */
    twostate lemma OtherFileKept(other: OpenFile)
      requires other.fs == fs && other.id != id && old(other.Valid()) && old(id in fs.chains)
      requires unchanged(other, other.cache) && forall i :: 0 <= i < |other.cache.blocks| ==> unchanged(other.cache.blocks[i])
      requires fs.Valid() && OthersKept(old(fs.entries), old(fs.chains))
      requires fs.disk.clusters.Keys == old(fs.disk.clusters).Keys
      requires forall k :: k in old(fs.disk.clusters) && k !in fs.chains[id] ==>
                 k in fs.disk.clusters && fs.disk.clusters[k] == old(fs.disk.clusters)[k]
      ensures other.Valid() && other.Contents() == old(other.Contents())
    {
      ghost var s, r, chain := old(other.State()), other.State(), fs.chains[other.id];
      assert other.cache.Blocks() == old(other.cache.Blocks());
      forall k | k in chain
        ensures k !in fs.chains[id]
      {
        ChainsOfFilesAreDisjoint(fs.Vol(), id, other.id, k);
      }
      SoundBeside(s, r, chain, other.clock);
      ViewHasChain(s, chain, other.clock);
      ViewHasChain(r, chain, other.clock);
      ClustersForIsCeiling(size, 0);
      BytesBeside(FileCaches.View(s), FileCaches.View(r), chain, other.size);
    }

    lemma DiskIsItsState()
      ensures State().disk == fs.disk.clusters
    {
    }

    /** A truncation through the open file updates the record's size but not its first cluster. */
    method SetSize(newSize: nat)
      requires Backed() && newSize < MAX_SIZE
      requires ClustersFor(newSize) <= |fs.chains[id]| + |FreeSet(fs.fat.table[..])|
      modifies this`size, fs, fs.fat.table, fs.fat.sectors, fs.disk, fs.disk.network
      ensures fs.Valid() && id in fs.entries && size == newSize == fs.entries[id].size
      ensures first == fs.entries[id].first <==> (old(size) == 0 <==> newSize == 0)
    {
      hide FirstFree, FileSystem.Linked, TruncatedData;
      size := fs.Truncate(id, newSize);
    }

    /** Takes the first block off the cache and writes it back if it was modified. */
    method FlushOne()
      requires Mounted() && FileCaches.Coherent(State()) && cache.blocks != []
      modifies cache, fs.disk, fs.disk.network
      ensures Mounted() && State() == FileCaches.FlushedFirst(old(State())) && cache.blocks == old(cache.blocks)[1..]
    {
      ghost var blocks := cache.Blocks();
      var block := cache.TakeFirst();
      assert cache.Blocks() == blocks[1..] && block.Value() == blocks[0];
      if block.modified {
        fs.StoreCluster(block.cluster, block.data);
      }
    }

    method FlushAll()
      requires Mounted() && FileCaches.Coherent(State())
      modifies cache, fs.disk, fs.disk.network
      ensures Mounted() && cache.blocks == [] && State() == FileCaches.FlushOf(old(State()))
    {
      hide FileCaches.Coherent;
      ghost var s := State();
      while cache.blocks != []
        invariant Mounted() && FileCaches.FlushOf(State()) == FileCaches.FlushOf(s)
        invariant FileCaches.Coherent(State())
        decreases |cache.blocks|
      {
        FileCaches.FlushFirst(State());
        FlushOne();
      }
    }

    lemma ReadyToFlush()
      requires Valid()
      ensures Backed() && id in fs.chains && Mounted() && FileCaches.Coherent(State())
      ensures var r := FileCaches.FlushOf(State());
              && SameOutside(State(), r, fs.chains[id]) && r.blocks == [] && r.disk == FileCaches.View(State())
              && Sound(r, fs.chains[id], clock)
    {
      FlushSameOutside(State(), fs.chains[id], clock);
      FileCaches.FlushWritesView(State());
    }

    /** Writes every modified block back and empties the cache: the disk alone then holds what readers saw. */
    method Flush()
      requires Valid()
      modifies cache, fs.disk, fs.disk.network
      ensures Valid() && cache.blocks == [] && fs.disk.clusters == old(FileCaches.View(State()))
      ensures Contents() == old(Contents()) && SameOutside(old(State()), State(), fs.chains[id])
    {
      hide FileCaches.FlushOf, FileCaches.View, FileSystem.Accounted, FileSystem.Linked, BytesOf, SameOutside;
      ReadyToFlush();
      FlushAll();
      EmptyCacheShowsDisk(State());
    }
  }

  /** The state after a file's chain grew from `chain` to `more`: the clusters gained hold zeros. */
  ghost function Grown(s: FileCaches.State, chain: Chain, more: Chain): FileCaches.State
    requires chain <= more
  {
    s.(disk := Zeroed(s.disk, more[|chain|..]))
  }

  lemma GrownNot(s: FileCaches.State, chain: Chain)
    ensures Grown(s, chain, chain) == s
  {
    ZeroedTwice(s.disk, [], []);
  }

  lemma OutsideKept(s: FileCaches.State, start: FileCaches.State, r: FileCaches.State, chain: Chain, more: Chain)
    requires chain <= more && start == Grown(s, chain, more) && SameOutside(start, r, more)
    ensures r.disk.Keys == s.disk.Keys
    ensures forall k :: k in s.disk && k !in more ==> k in r.disk && r.disk[k] == s.disk[k]
  {
    assert forall i :: 0 <= i < |more| - |chain| ==> more[|chain|..][i] in more;
  }

  lemma SameOutsideSelf(s: FileCaches.State, chain: Chain)
    ensures SameOutside(s, s, chain)
  {
  }

  lemma SameOutsideOn(s: FileCaches.State, r: FileCaches.State, t: FileCaches.State, chain: Chain)
    requires SameOutside(s, r, chain) && SameOutside(r, t, chain)
    ensures SameOutside(s, t, chain)
  {
  }

  lemma ReadInNumbers(bs: seq<byte>, offset: nat, n: nat, beyond: seq<byte>)
    requires offset + n <= |bs| && n <= |beyond|
    ensures |ReadFrom(bs, offset, n, beyond)| == n
    ensures offset % 4096 + n <= 4096 * ((n + 4095) / 4096) ==> ReadFrom(bs, offset, n, beyond) == bs[offset..offset + n]
  {
    CountInNumbers(offset, n);
    StoredIsPart(offset, n);
  }

  lemma NothingRead(bs: seq<byte>, offset: nat, beyond: seq<byte>)
    requires offset <= |bs|
    ensures ReadFrom(bs, offset, 0, beyond) == []
  {
  }

  lemma PastTheBuffer(buffer: seq<byte>, beyond: seq<byte>, from: nat, k: nat, n: nat)
    requires k <= n <= |beyond| && from + k <= |buffer| && (k < n ==> from + k == |buffer|)
    ensures (buffer + beyond)[from..from + n] == buffer[from..from + k] + beyond[..n - k]
  {
  }

  /** A copy that runs out of the gathered clusters goes on in what lies beyond them. */
  lemma ReadFromBuffer(view: Data, chain: Chain, size: nat, offset: nat, n: nat, buffer: seq<byte>, beyond: seq<byte>)
    requires size <= CLUSTER_BYTES * |chain| && HasChain(view, chain) && 0 < n <= |beyond| && offset + n <= size
    requires |buffer| == CLUSTER_BYTES * ClusterCount(n) && Gathered(view, chain, offset / CLUSTER_BYTES, buffer)
    ensures var from := offset % CLUSTER_BYTES;
            && from + n <= |buffer + beyond|
            && (buffer + beyond)[from..from + n] == ReadFrom(BytesOf(view, chain, size), offset, n, beyond)
  {
    hide Gathered, BytesOf;
    CountIsRightIff(offset, n);
    GatheredRange(view, chain, size, offset, Stored(offset, n), buffer);
    PastTheBuffer(buffer, beyond, offset % CLUSTER_BYTES, Stored(offset, n), n);
  }

  lemma WholeOfIt(offset: nat, data: seq<byte>)
    ensures Stored(offset, |data|) <= |data|
    ensures offset % 4096 + |data| <= 4096 * ((|data| + 4095) / 4096) ==> data[..Stored(offset, |data|)] == data
  {
    StoredIsPart(offset, |data|);
    CountInNumbers(offset, |data|);
  }

  lemma RangeFits(chain: Chain, size: nat, offset: nat, n: nat)
    requires Inside(chain, size, offset, n) && 0 < n
    ensures offset / CLUSTER_BYTES + ClusterCount(n) <= |chain| && offset / CLUSTER_BYTES < |chain|
    ensures Done(offset, n, 0) == 0
  {
    RangeStaysInChain(offset, n, size);
  }

  /** Each cluster of the range that the code goes through has a block. */
  ghost predicate HeldRange(s: FileCaches.State, chain: Chain, offset: nat, n: nat) {
    forall j :: offset / CLUSTER_BYTES <= j < offset / CLUSTER_BYTES + ClusterCount(n) && j < |chain| ==>
      FileCaches.Holds(s.blocks, chain[j])
  }

  /** With the cache off, or every cluster cached and none to be gained, all pieces are safe. */
  lemma CachedIsSafe(s: FileCaches.State, start: FileCaches.State, chain: Chain, more: Chain, clock: int,
                     size: nat, offset: nat, data: seq<byte>)
    requires chain <= more && start == Grown(s, chain, more) && Sound(start, more, clock)
    requires Inside(more, size, offset, |data|) && Distinct(more)
    ensures s.bytes == 0 || (HeldRange(s, chain, offset, |data|) && chain == more) ==>
              AllSafe(start, more, clock, PiecesOf(more, size, offset, data))
  {
    hide AllSafe, FileCaches.Holds, Fit, FileCaches.Coherent, Done;
    var pieces := PiecesOf(more, size, offset, data);
    if s.bytes == 0 || (HeldRange(s, chain, offset, |data|) && chain == more) {
      RangeStaysInChain(offset, |data|, size);
      AllHeldIsSafe(start, more, clock, pieces);
    }
  }

  /** `r` is the state after the first `j` pieces of a write from `s`. */
  ghost predicate Midway(s: FileCaches.State, r: FileCaches.State, chain: Chain, clock: int, pieces: seq<Piece>, j: nat) {
    && j <= |pieces| && PiecesFit(pieces, chain) && PiecesFit(pieces[j..], chain)
    && Fit(s, chain, clock) && Fit(r, chain, clock + j)
    && WritesOf(r, chain, clock + j, pieces[j..]) == WritesOf(s, chain, clock, pieces)
  }

  lemma MidwayStart(s: FileCaches.State, chain: Chain, clock: int, pieces: seq<Piece>)
    requires PiecesFit(pieces, chain) && Fit(s, chain, clock)
    ensures Midway(s, s, chain, clock, pieces, 0)
  {
    assert pieces[0..] == pieces;
  }

  lemma MidwayStep(s: FileCaches.State, r: FileCaches.State, chain: Chain, clock: int, pieces: seq<Piece>, j: nat)
    requires Midway(s, r, chain, clock, pieces, j) && j < |pieces|
    ensures Fit(r, chain, clock + j) && PiecesFit(pieces, chain)
    ensures pieces[j].cluster in chain && pieces[j].offset + |pieces[j].data| <= CLUSTER_BYTES
    ensures Midway(s, PieceWritten(r, chain, clock + j, pieces[j]), chain, clock, pieces, j + 1)
  {
    hide Fit, PieceWritten;
    assert pieces[j..][0] == pieces[j] && pieces[j..][1..] == pieces[j + 1..];
    assert PiecesFit(pieces[j + 1..], chain);
  }

  lemma MidwayEnd(s: FileCaches.State, r: FileCaches.State, chain: Chain, clock: int, pieces: seq<Piece>)
    requires Midway(s, r, chain, clock, pieces, |pieces|)
    ensures Fit(s, chain, clock) && PiecesFit(pieces, chain) && r == WritesOf(s, chain, clock, pieces)
  {
    assert pieces[|pieces|..] == [];
  }

  lemma {:induction false} FlushSameOutside(s: FileCaches.State, chain: Chain, clock: int)
    requires OwnedBy(s, chain, clock) && forall i :: 0 <= i < |s.blocks| ==> s.blocks[i].cluster in s.disk
    ensures SameOutside(s, FileCaches.FlushOf(s), chain)
    decreases |s.blocks|
  {
    if s.blocks != [] {
      var r := FileCaches.FlushedFirst(s);
      assert forall i :: 0 <= i < |r.blocks| ==> r.blocks[i] == s.blocks[i + 1];
      FlushSameOutside(r, chain, clock);
    }
  }

  // ---------- two open files ----------

  /** A cache over a disk that changed outside its file's chain only. */
  lemma SoundBeside(s: FileCaches.State, r: FileCaches.State, chain: Chain, clock: int)
    requires Sound(s, chain, clock) && r.blocks == s.blocks && r.bytes == s.bytes && r.disk.Keys == s.disk.Keys
    requires forall k :: k in chain ==> k in r.disk && r.disk[k] == s.disk[k]
    requires forall k :: k in r.disk ==> |r.disk[k]| == CLUSTER_BYTES
    ensures Sound(r, chain, clock)
    ensures forall k :: k in chain ==>
              k in FileCaches.View(s) && k in FileCaches.View(r) && FileCaches.View(r)[k] == FileCaches.View(s)[k]
  {
  }

  /** The same clusters in view are the same bytes. */
  lemma BytesBeside(v: Data, w: Data, chain: Chain, size: nat)
    requires HasChain(v, chain) && HasChain(w, chain) && size <= CLUSTER_BYTES * |chain|
    requires forall k :: k in chain ==> w[k] == v[k]
    ensures BytesOf(w, chain, size) == BytesOf(v, chain, size)
  {
  }

  /** A write to one open file leaves what another one holds alone. */
  method WriteBeside(file: OpenFile, other: OpenFile, offset: nat, data: seq<byte>) returns (written: nat)
    requires file.Valid() && other.Valid() && file.fs == other.fs && file.id != other.id && file.cache != other.cache
    requires forall i, j :: 0 <= i < |file.cache.blocks| && 0 <= j < |other.cache.blocks| ==>
               file.cache.blocks[i] != other.cache.blocks[j]
    requires offset + |data| < MAX_SIZE
    requires file.size < offset + |data| ==>
               && file.first != 0 && file.id in file.fs.chains
               && ClustersFor(offset + |data|) <= |file.fs.chains[file.id]| + |FreeSet(file.fs.fat.table[..])|
    modifies file`size, file`clock, file.fs, file.fs.fat.table, file.fs.fat.sectors, file.fs.disk, file.fs.disk.network,
             file.cache, file.cache.blocks
    ensures file.Usable() && other.Valid() && other.Contents() == old(other.Contents())
  {
    hide Sound, Fit, AllSafe, PlainWrites, PiecesOf, WritesOf, Inside, Distinct, Stored, Splice, Grown;
    hide FileCaches.Coherent, FileCaches.View, FileSystem.Accounted, FileSystem.Linked, OpenFile.OthersKept, OpenFile.AllCached;
    ghost var base, start;
    file.ChainIsThere();
    label Before:
    written, base, start := file.Write(offset, data);
    file.OtherFileKept@Before(other);
  }

  lemma ChainsOfFilesAreDisjoint(v: Volume, f: nat, g: nat, k: nat)
    requires Partitioned(v) && f in v.chains && g in v.chains && f != g && k in v.chains[g]
    ensures k !in v.chains[f]
  {
    assert Owns(v, g, k);
    assert k in v.chains[f] ==> Owns(v, f, k);
  }

  lemma EmptyCacheShowsDisk(s: FileCaches.State)
    requires s.blocks == []
    ensures FileCaches.View(s) == s.disk
  {
  }

  lemma ExtendedBytes(s: FileCaches.State, chain: Chain, more: Chain, clock: int, size: nat, newSize: nat)
    requires Sound(s, chain, clock) && chain <= more && (forall i :: 0 <= i < |more| ==> more[i] in s.disk)
    requires forall a, b :: 0 <= a < b < |more| ==> more[a] != more[b]
    requires size <= newSize <= CLUSTER_BYTES * |more| && size <= CLUSTER_BYTES * |chain|
    ensures var r := s.(disk := Zeroed(s.disk, more[|chain|..]));
            && HasChain(FileCaches.View(s), chain) && HasChain(FileCaches.View(r), more)
            && BytesOf(FileCaches.View(r), more, newSize)[..size] == BytesOf(FileCaches.View(s), chain, size)
            && forall k :: CLUSTER_BYTES * |chain| <= k < newSize ==> BytesOf(FileCaches.View(r), more, newSize)[k] == 0
  {
    hide FileCaches.View;
    var r := s.(disk := Zeroed(s.disk, more[|chain|..]));
    ExtensionIsSound(s, chain, more, clock);
    ViewHasChain(s, chain, clock);
    ViewHasChain(r, more, clock);
    GrownBytes(FileCaches.View(s), FileCaches.View(r), chain, more, size, newSize);
  }

  lemma SizesOrdered(size: nat, newSize: nat)
    requires size <= newSize
    ensures ClustersFor(size) <= ClustersFor(newSize)
    ensures newSize <= CLUSTER_BYTES * ClustersFor(newSize)
  {
  }

  lemma ExtendedChain(chain: Chain, more: Chain)
    requires |chain| <= |more| && (if |more| <= |chain| then more == chain[..|more|] else more[..|chain|] == chain)
    ensures chain <= more
    ensures |chain| == |more| ==> more[|chain|..] == []
  {
    assert |chain| == |more| ==> chain[..|more|] == chain;
  }

  /** Zeroing clusters a file has just gained leaves its cache sound and its old clusters alone. */
  lemma ExtensionIsSound(s: FileCaches.State, chain: Chain, more: Chain, clock: int)
    requires Sound(s, chain, clock) && chain <= more && (forall i :: 0 <= i < |more| ==> more[i] in s.disk)
    requires forall a, b :: 0 <= a < b < |more| ==> more[a] != more[b]
    ensures var r := s.(disk := Zeroed(s.disk, more[|chain|..]));
            && Sound(r, more, clock)
            && (forall i :: 0 <= i < |chain| ==> FileCaches.View(r)[chain[i]] == FileCaches.View(s)[chain[i]])
            && (forall i :: |chain| <= i < |more| ==> FileCaches.View(r)[more[i]] == Zeros(CLUSTER_BYTES))
  {
    var gained := more[|chain|..];
    assert forall i :: 0 <= i < |chain| ==> more[i] == chain[i];
    forall i | 0 <= i < |chain|
      ensures chain[i] !in gained
    {
      assert forall j :: 0 <= j < |gained| ==> gained[j] == more[|chain| + j];
    }
    forall i | |chain| <= i < |more|
      ensures more[i] in gained && !FileCaches.Holds(s.blocks, more[i])
    {
      assert gained[i - |chain|] == more[i];
    }
  }

  function Clipped(offset: nat, length: nat, size: nat): nat {
    if size <= offset then 0 else if size < offset + length then size - offset else length
  }

  lemma GatheredNothing(view: Data, chain: Chain, skip: nat)
    requires HasChain(view, chain) && skip <= |chain|
    ensures Gathered(view, chain, skip, [])
  {
  }

  lemma ViewHasChain(s: FileCaches.State, chain: Chain, clock: int)
    requires Sound(s, chain, clock)
    ensures HasChain(FileCaches.View(s), chain)
  {
  }
}
