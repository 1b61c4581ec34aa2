/** File-level operations on the volume: create, truncate and remove. */
module Fat32 {
  import opened Bytes
  import opened Disks
  import opened FatChains
  import opened FatRuns
  import opened FatTables

  /** What the directory keeps of a file: its first cluster, 0 when it has none, and its size in bytes. */
  datatype DirEntry = DirEntry(first: nat, size: nat)

  const MAX_SIZE := 0x1_0000_0000

  function ClustersFor(size: nat): nat {
    if size == 0 then 0 else (size - 1) / CLUSTER_BYTES + 1
  }

  /** `ClustersFor` is the least number of clusters that hold `size` bytes. */
  lemma ClustersForIsCeiling(size: nat, n: nat)
    ensures size <= CLUSTER_BYTES * ClustersFor(size)
    ensures size <= CLUSTER_BYTES * n ==> ClustersFor(size) <= n
  {
  }

  /** `data` with the listed clusters filled with zeros. */
  function Zeroed(data: Data, clusters: Chain): Data {
    map k | k in data :: if k in clusters then Zeros(CLUSTER_BYTES) else data[k]
  }

  /** `bs` with everything from `from` on replaced by zeros. */
  function ZeroTail(bs: seq<byte>, from: nat): (r: seq<byte>)
    requires from <= |bs|
    ensures |r| == |bs|
  {
    bs[..from] + Zeros(|bs| - from)
  }

  /** Cluster contents after a truncation from `size` to `newSize` that takes a chain from `c` to `r`. */
  function TruncatedData(data: Data, c: Chain, r: Chain, size: nat, newSize: nat): Data
    requires forall k :: k in data ==> |data[k]| == CLUSTER_BYTES
  {
    if |c| < |r| then Zeroed(data, r[|c|..])
    else if |c| == |r| && newSize < size && c != [] && c[|c| - 1] in data
    then data[c[|c| - 1] := ZeroTail(data[c[|c| - 1]], newSize % CLUSTER_BYTES)]
    else data
  }

  /** The first `n` clusters of the free list. */
  function FirstFree(t: Table, n: int): Chain {
    if 2 <= |t| && 0 <= n <= |FreeClusters(t, 2)| then FreeClusters(t, 2)[..n] else []
  }

  lemma ResizeTakesFirst(v: Volume, f: nat, m: nat, eoc: Word)
    requires Partitioned(v) && IsEoc(eoc) && f in v.chains && |v.chains[f]| <= m <= |v.chains[f]| + |FreeSet(v.table)|
    ensures var r := Resize(v, f, m, eoc);
            f in r.chains && r.chains[f] == v.chains[f] + FirstFree(v.table, m - |v.chains[f]|)
  {
    TableHasTwo(v);
    ResizeTakesTheLowest(v, f, m, eoc);
  }

  class FileSystem {
    const fat: FatTable
    const disk: Disk
    var entries: map<nat, DirEntry>
    /** The clusters of every file and directory. */
    ghost var chains: map<nat, Chain>

    ghost function Vol(): Volume
      reads this, fat.table
    {
      Volume(fat.table[..], chains)
    }

    ghost predicate EntryTrue(f: nat)
      reads this
      requires f in entries && f in chains
    {
      && |chains[f]| == ClustersFor(entries[f].size) && entries[f].size < MAX_SIZE
      && entries[f].first == (if chains[f] == [] then 0 else chains[f][0])
    }

    /** The table agrees with the disk. */
    ghost predicate Linked()
      reads this, fat, disk, fat.table, fat.sectors
    {
      fat.disk == disk && fat.Valid()
    }

    /** The clusters are partitioned among the files; entries may be out of date while one is worked on. */
    ghost predicate Chained()
      reads this, fat.table
    {
      Partitioned(Vol()) && entries.Keys <= chains.Keys
    }

    ghost predicate Accounted()
      reads this, fat.table
    {
      Chained() && forall f :: f in entries ==> EntryTrue(f)
    }

    ghost predicate Consistent()
      reads this, fat, disk, fat.table, fat.sectors
    {
      Linked() && Chained()
    }

    ghost predicate Valid()
      reads this, fat, disk, fat.table, fat.sectors
    {
      Linked() && Accounted()
    }

    /** A file's first-cluster field is 0 exactly when the file is empty. */
    lemma FirstClusterIffNonempty(f: nat)
      requires Valid() && f in entries
      ensures entries[f].first == 0 <==> entries[f].size == 0
    {
    }

    constructor Mount(fat: FatTable, entries: map<nat, DirEntry>, ghost chains: map<nat, Chain>)
      requires fat.Valid() && Partitioned(Volume(fat.table[..], chains)) && entries.Keys <= chains.Keys
      requires forall f :: f in entries ==>
                 && |chains[f]| == ClustersFor(entries[f].size) && entries[f].size < MAX_SIZE
                 && entries[f].first == (if chains[f] == [] then 0 else chains[f][0])
      ensures Valid() && this.fat == fat && this.entries == entries && this.chains == chains
    {
      this.fat, this.disk, this.entries, this.chains := fat, fat.disk, entries, chains;
    }

    method CreateFile(f: nat)
      requires Valid() && f !in chains
      modifies this
      ensures Valid() && Vol() == Step(old(Vol()), Create(f), fat.eoc)
      ensures entries == old(entries)[f := DirEntry(0, 0)]
    {
      StepKeepsPartition(Vol(), Create(f), fat.eoc);
      entries := entries[f := DirEntry(0, 0)];
      chains := chains[f := []];
    }

    /** Overwrites a cluster with zeros. */
    method ZeroCluster(k: nat)
      requires Linked() && disk.layout.HasCluster(k)
      modifies disk, disk.network
      ensures Linked() && disk.clusters == old(disk.clusters)[k := Zeros(CLUSTER_BYTES)]
    {
      var data := disk.ReadCluster(k);
      for i := 0 to CLUSTER_BYTES
        modifies data
        invariant forall j :: 0 <= j < i ==> data[j] == 0
      {
        data[i] := 0;
      }
      assert data[..] == Zeros(CLUSTER_BYTES);
      StoreCluster(k, data[..]);
    }

    /** Overwrites a cluster; the table and its copy on disk are not concerned. */
    method StoreCluster(k: nat, data: seq<byte>)
      requires Linked() && disk.layout.HasCluster(k) && |data| == CLUSTER_BYTES
      modifies disk, disk.network
      ensures Linked() && disk.clusters == old(disk.clusters)[k := data]
    {
      disk.layout.FatBeforeData();
      disk.WriteCluster(k, data);
      assert forall i :: 0 <= i < |fat.sectors| && old(fat.Clean(i)) ==> fat.Clean(i);
    }

    /** Takes the lowest free cluster for an empty file. */
    method TakeFirstCluster(f: nat) returns (first: nat)
      requires Consistent() && f in chains && chains[f] == [] && FreeSet(fat.table[..]) != {}
      modifies this`chains, fat.table, fat.sectors
      ensures Consistent() && Vol() == Step(old(Vol()), Grow(f), fat.eoc)
      ensures chains[f] == [first] && disk.layout.HasCluster(first)
    {
      StepKeepsPartition(Vol(), Grow(f), fat.eoc);
      LowestFreeExists(fat.table[..]);
      first := fat.NextFreeCluster();
      fat.SetUsedCluster(first);
      chains := chains[f := [first]];
    }

    /** Gives an empty file its first cluster: the lowest free one, zeroed. */
    method AddFirstCluster(f: nat) returns (first: nat)
      requires Consistent() && f in chains && chains[f] == [] && FreeSet(fat.table[..]) != {}
      modifies this`chains, fat.table, fat.sectors, disk, disk.network
      ensures Consistent() && Vol() == Step(old(Vol()), Grow(f), fat.eoc)
      ensures chains[f] == [first] && disk.clusters == Zeroed(old(disk.clusters), [first])
    {
      hide Partitioned, Step;
      first := TakeFirstCluster(f);
      ZeroCluster(first);
    }

    /** Links one more cluster to a file that has some, and zeroes it. */
    method AddCluster(f: nat, first: nat) returns (linked: nat)
      requires Consistent() && f in chains && chains[f] != [] && chains[f][0] == first && FreeSet(fat.table[..]) != {}
      modifies this`chains, fat.table, fat.sectors, disk, disk.network
      ensures Consistent() && Vol() == Step(old(Vol()), Grow(f), fat.eoc)
      ensures chains[f] == old(chains[f]) + [linked] && disk.clusters == Zeroed(old(disk.clusters), [linked])
    {
      StepKeepsPartition(Vol(), Grow(f), fat.eoc);
      linked := fat.LinkFreeCluster(first, chains[f]);
      chains := chains[f := chains[f] + [linked]];
      ZeroCluster(linked);
    }

    method DropCluster(f: nat, first: nat) returns (removed: nat)
      requires Consistent() && f in chains && chains[f] != [] && chains[f][0] == first
      modifies this`chains, fat.table, fat.sectors
      ensures Consistent() && Vol() == Step(old(Vol()), Shrink(f), fat.eoc)
      ensures chains[f] == old(chains[f])[..|old(chains[f])| - 1]
      ensures removed == 0 <==> chains[f] == []
    {
      StepKeepsPartition(Vol(), Shrink(f), fat.eoc);
      assert IsChain(fat.table[..], chains[f]);
      hide Partitioned;
      ghost var c := chains[f];
      removed := fat.RemoveLastLinkedCluster(first, c);
      chains := chains[f := c[..|c| - 1]];
    }

    /** Changes the size of a file, linking zeroed clusters or giving back the last ones. */
    method ResizeFile(f: nat, newSize: nat)
      requires Valid() && f in entries && newSize < MAX_SIZE
      requires ClustersFor(newSize) <= |chains[f]| + |FreeSet(fat.table[..])|
      modifies this, fat.table, fat.sectors, disk, disk.network
      ensures Valid()
      ensures Resized(old(Vol()), Vol(), f, ClustersFor(newSize))
      ensures Vol() == Resize(old(Vol()), f, ClustersFor(newSize), fat.eoc)
      ensures entries == old(entries)[f := DirEntry(if newSize == 0 then 0 else chains[f][0], newSize)]
      ensures disk.clusters == TruncatedData(old(disk.clusters), old(chains[f]), chains[f], old(entries[f].size), newSize)
      ensures 2 <= fat.table.Length && fat.table[0] == old(fat.table[0]) && fat.table[1] == old(fat.table[1])
      ensures |old(chains[f])| <= ClustersFor(newSize) ==>
                chains[f] == old(chains[f]) + FirstFree(old(fat.table[..]), ClustersFor(newSize) - |old(chains[f])|)
    {
      hide Resize, TruncatedData, Partitioned, FirstFree;
      assert IsEoc(fat.eoc);
      hide FatTable.Valid;
      TableHasTwo(Vol());
      ResizeKeepsReserved(Vol(), f, ClustersFor(newSize), fat.eoc);
      if |chains[f]| <= ClustersFor(newSize) {
        ResizeTakesFirst(Vol(), f, ClustersFor(newSize), fat.eoc);
      }
      ResizeOutcome(Vol(), f, ClustersFor(newSize), fat.eoc);
      var first := ResizeChain(f, newSize);
      entries := entries[f := DirEntry(first, newSize)];
    }

    /** A truncation: the resize, and the table written to disk. */
    method Truncate(f: nat, newSize: nat) returns (size: nat)
      requires Valid() && f in entries && newSize < MAX_SIZE
      requires ClustersFor(newSize) <= |chains[f]| + |FreeSet(fat.table[..])|
      modifies this, fat.table, fat.sectors, disk, disk.network
      ensures Valid() && size == newSize
      ensures Resized(old(Vol()), Vol(), f, ClustersFor(newSize))
      ensures Vol() == Resize(old(Vol()), f, ClustersFor(newSize), fat.eoc)
      ensures entries == old(entries)[f := DirEntry(if newSize == 0 then 0 else chains[f][0], newSize)]
      ensures disk.clusters == TruncatedData(old(disk.clusters), old(chains[f]), chains[f], old(entries[f].size), newSize)
      ensures 2 <= fat.table.Length && fat.table[0] == old(fat.table[0]) && fat.table[1] == old(fat.table[1])
      ensures |old(chains[f])| <= ClustersFor(newSize) ==>
                chains[f] == old(chains[f]) + FirstFree(old(fat.table[..]), ClustersFor(newSize) - |old(chains[f])|)
      ensures OnDisk(disk.layout, disk.sectors, fat.table[..])
    {
      hide Resize, TruncatedData, Partitioned, FatTable.Valid, Resized, FirstFree;
      ResizeFile(f, newSize);
      SaveTable();
      size := newSize;
    }

    method SaveTable()
      requires Linked()
      modifies fat.sectors, disk`sectors, disk.network
      ensures Linked() && disk.clusters == old(disk.clusters) && OnDisk(disk.layout, disk.sectors, fat.table[..])
    {
      var _ := fat.WriteTable();
    }

    /** The part of a truncation that works on the chain and its clusters; answers the new first cluster. */
    method ResizeChain(f: nat, newSize: nat) returns (first: nat)
      requires Valid() && f in entries && newSize < MAX_SIZE
      requires ClustersFor(newSize) <= |chains[f]| + |FreeSet(fat.table[..])|
      modifies this`chains, fat.table, fat.sectors, disk, disk.network
      ensures Consistent() && f in chains
      ensures Vol() == Resize(old(Vol()), f, ClustersFor(newSize), fat.eoc)
      ensures first == if chains[f] == [] then 0 else chains[f][0]
      ensures disk.clusters == TruncatedData(old(disk.clusters), old(chains[f]), chains[f], old(entries[f].size), newSize)
    {
      hide Partitioned, FatTable.Valid;
      var entry := entries[f];
      var actual := if entry.size == 0 then 0 else (entry.size - 1) / CLUSTER_BYTES + 1;
      var needed := if newSize == 0 then 0 else (newSize - 1) / CLUSTER_BYTES + 1;
      first := entry.first;
      if needed < actual {
        first := DropClusters(f, first, actual - needed);
      } else if actual < needed {
        first := LinkClusters(f, first, needed - actual);
      } else if newSize < entry.size {
        ClearTail(f, first, newSize);
      }
    }

    /** Removes the last `count` clusters, one at a time; the first cluster becomes 0 when none is left. */
    method DropClusters(f: nat, first: nat, count: nat) returns (newFirst: nat)
      requires Consistent() && f in chains && 0 < count <= |chains[f]| && chains[f][0] == first
      modifies this`chains, fat.table, fat.sectors
      ensures Consistent() && f in chains
      ensures Vol() == Resize(old(Vol()), f, |old(chains[f])| - count, fat.eoc)
      ensures |chains[f]| == |old(chains[f])| - count && chains[f] <= old(chains[f])
      ensures newFirst == if chains[f] == [] then 0 else first
    {
      ghost var m := |chains[f]| - count;
      var last := 0;
      var done := 0;
      while done < count
        invariant Consistent() && f in chains && done <= count && entries == old(entries)
        invariant |chains[f]| == |old(chains[f])| - done && chains[f] <= old(chains[f])
        invariant Resize(Vol(), f, m, fat.eoc) == Resize(old(Vol()), f, m, fat.eoc)
        invariant 0 < done ==> (last == 0 <==> chains[f] == [])
      {
        last := DropCluster(f, first);
        done := done + 1;
      }
      newFirst := if last == 0 then 0 else first;
    }

    /** Appends `count` zeroed clusters; an empty file gets its first one by a different route. */
    method LinkClusters(f: nat, first: nat, count: nat) returns (newFirst: nat)
      requires Consistent() && f in chains && 0 < count <= |FreeSet(fat.table[..])|
      requires first == if chains[f] == [] then 0 else chains[f][0]
      modifies this`chains, fat.table, fat.sectors, disk, disk.network
      ensures Consistent() && f in chains
      ensures Vol() == Resize(old(Vol()), f, |old(chains[f])| + count, fat.eoc)
      ensures |chains[f]| == |old(chains[f])| + count && old(chains[f]) <= chains[f]
      ensures newFirst == chains[f][0]
      ensures disk.clusters == Zeroed(old(disk.clusters), chains[f][|old(chains[f])|..])
    {
      var toLink := count;
      newFirst := first;
      if first == 0 {
        FreeCountAfterStep(Vol(), Grow(f), fat.eoc);
        newFirst := AddFirstCluster(f);
        toLink := toLink - 1;
        ghost var data := disk.clusters;
        LinkMore(f, newFirst, toLink);
        ZeroedTwice(old(disk.clusters), [newFirst], chains[f][1..]);
        assert chains[f][0..] == [newFirst] + chains[f][1..];
      } else {
        LinkMore(f, newFirst, toLink);
      }
    }

    method LinkMore(f: nat, first: nat, count: nat)
      requires Consistent() && f in chains && count <= |FreeSet(fat.table[..])|
      requires chains[f] != [] && chains[f][0] == first
      modifies this`chains, fat.table, fat.sectors, disk, disk.network
      ensures Consistent() && f in chains
      ensures Vol() == Resize(old(Vol()), f, |old(chains[f])| + count, fat.eoc)
      ensures |chains[f]| == |old(chains[f])| + count && old(chains[f]) <= chains[f]
      ensures disk.clusters == Zeroed(old(disk.clusters), chains[f][|old(chains[f])|..])
    {
      hide Partitioned;
      ghost var v, c, m, data := Vol(), chains[f], |chains[f]| + count, disk.clusters;
      var linked := 0;
      while linked < count
        invariant Consistent() && f in chains && linked <= count && entries == old(entries)
        invariant |chains[f]| == |c| + linked && c <= chains[f]
        invariant count - linked <= |FreeSet(fat.table[..])|
        invariant Resize(Vol(), f, m, fat.eoc) == Resize(v, f, m, fat.eoc)
        invariant disk.clusters == Zeroed(data, chains[f][|c|..])
      {
        ghost var d := chains[f];
        FreeCountAfterStep(Vol(), Grow(f), fat.eoc);
        var k := AddCluster(f, first);
        ZeroedTwice(data, d[|c|..], [k]);
        assert chains[f][|c|..] == d[|c|..] + [k];
        linked := linked + 1;
      }
    }

    /** Shrinking within the last cluster clears it from the new size on. */
    method ClearTail(f: nat, first: nat, newSize: nat)
      requires Consistent() && f in chains && chains[f] != [] && chains[f][0] == first
      modifies disk, disk.network
      ensures Consistent()
      ensures var last := chains[f][|chains[f]| - 1];
              && last in old(disk.clusters) && |old(disk.clusters)[last]| == CLUSTER_BYTES
              && disk.clusters == old(disk.clusters)[last := ZeroTail(old(disk.clusters)[last], newSize % CLUSTER_BYTES)]
    {
      var last := fat.LastLinked(first, chains[f]);
      var data := disk.ReadCluster(last);
      ghost var bytes := data[..];
      var from := newSize % CLUSTER_BYTES;
      for i := from to CLUSTER_BYTES
        modifies data
        invariant forall j :: 0 <= j < CLUSTER_BYTES ==> data[j] == if from <= j < i then 0 else bytes[j]
      {
        data[i] := 0;
      }
      assert data[..] == ZeroTail(bytes, from);
      StoreCluster(last, data[..]);
    }

    /** Frees the chain of a file and forgets its entry. */
    method Remove(f: nat)
      requires Valid() && f in entries
      modifies this, fat.table, fat.sectors, disk, disk.network
      ensures Valid() && Vol() == Step(old(Vol()), Op.Remove(f), fat.eoc)
      ensures entries == old(entries) - {f} && disk.clusters == old(disk.clusters)
      ensures 2 <= fat.table.Length && fat.table[0] == old(fat.table[0]) && fat.table[1] == old(fat.table[1])
      ensures OnDisk(disk.layout, disk.sectors, fat.table[..])
    {
      StepKeepsPartition(Vol(), Op.Remove(f), fat.eoc);
      ReservedKept(Vol(), Op.Remove(f), fat.eoc);
      ChainEntriesAreUsed(fat.table[..], chains[f]);
      var clusters := fat.LinkedClusters(entries[f].first, chains[f]);
      FreeClusters(clusters);
      entries := entries - {f};
      chains := chains - {f};
      SaveTable();
    }

    method FreeClusters(clusters: seq<nat>)
      requires Linked() && forall i :: 0 <= i < |clusters| ==> clusters[i] < fat.table.Length
      modifies fat.table, fat.sectors
      ensures Linked() && fat.table[..] == FreeAll(old(fat.table[..]), clusters)
    {
      ghost var t := fat.table[..];
      var next := 0;
      assert fat.table[..] == FreeAll(t, clusters[..0]);
      while next < |clusters|
        invariant next <= |clusters| && Linked() && fat.table[..] == FreeAll(t, clusters[..next])
      {
        FreeOneMore(t, clusters, next);
        fat.SetFreeCluster(clusters[next]);
        next := next + 1;
      }
      assert clusters[..|clusters|] == clusters;
    }
  }

  lemma FreeOneMore(t: Table, clusters: seq<nat>, n: nat)
    requires n < |clusters| && clusters[n] < |t|
    ensures FreeAll(t, clusters[..n])[clusters[n] := 0] == FreeAll(t, clusters[..n + 1])
  {
    assert clusters[..n + 1] == clusters[..n] + [clusters[n]];
  }

  lemma ZeroedTwice(data: Data, a: Chain, b: Chain)
    ensures Zeroed(Zeroed(data, a), b) == Zeroed(data, a + b)
    ensures Zeroed(data, []) == data
  {
  }
}
