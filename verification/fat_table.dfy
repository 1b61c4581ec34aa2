/** The allocation table in memory, changed in place, with a modified flag for each sector it was read from. */
module FatTables {
  import opened Bytes
  import opened Disks
  import opened FatChains
  import opened FatRuns

  const ENTRIES := 128

  /** What sector `i` of the table holds on disk when the table is `t`. */
  function SectorImage(t: Table, i: nat): (r: seq<byte>)
    requires ENTRIES * (i + 1) <= |t|
    ensures |r| == SECTOR_BYTES
  {
    EncodeWords(t[ENTRIES * i..ENTRIES * (i + 1)])
  }

  function Images(t: Table): (r: seq<seq<byte>>)
    ensures |r| == |t| / ENTRIES
  {
    seq(|t| / ENTRIES, i requires 0 <= i < |t| / ENTRIES => SectorImage(t, i))
  }

  lemma ImageKept(t: Table, k: nat, w: Word, i: nat)
    requires k < |t| && ENTRIES * (i + 1) <= |t| && k / ENTRIES != i
    ensures SectorImage(t[k := w], i) == SectorImage(t, i)
  {
    assert t[k := w][ENTRIES * i..ENTRIES * (i + 1)] == t[ENTRIES * i..ENTRIES * (i + 1)];
  }

  function TableSectors(l: Layout): (r: seq<nat>)
    ensures |r| == l.fatSectors && forall i :: 0 <= i < |r| ==> r[i] == FAT_START + i
  {
    seq(l.fatSectors, i requires 0 <= i < l.fatSectors => TableSector(i))
  }

  function TableSector(i: nat): nat {
    FAT_START + i
  }

  /** Every sector of the table on disk holds its image. */
  ghost predicate OnDisk(l: Layout, s: Sectors, t: Table) {
    && |t| == ENTRIES * l.fatSectors && FAT_START + l.fatSectors <= |s|
    && forall i :: 0 <= i < l.fatSectors ==> s[FAT_START + i] == SectorImage(t, i)
  }

  /** A sector's image is its stretch of the encoded table. */
  /** Entry `k` is in sector 32 + k / 128, at byte 4 * (k % 128), low byte first. */
  lemma EntryOnDisk(l: Layout, s: Sectors, t: Table, k: nat)
    requires WellFormed(s) && OnDisk(l, s, t) && k < |t|
    ensures 32 + k / 128 < |s| && |s[32 + k / 128]| == 512
    ensures var at, sector := 4 * (k % 128), s[32 + k / 128];
            && sector[at] as int == t[k] % 0x100 && sector[at + 1] as int == t[k] / 0x100 % 0x100
            && sector[at + 2] as int == t[k] / 0x1_0000 % 0x100 && sector[at + 3] as int == t[k] / 0x100_0000
  {
    var i, j := k / 128, k % 128;
    assert s[FAT_START + i] == SectorImage(t, i);
    var part := t[ENTRIES * i..ENTRIES * (i + 1)];
    assert part[j] == t[k];
    LowByteFirst(part, j);
  }

  lemma ImageIsSlice(t: Table, i: nat)
    requires ENTRIES * (i + 1) <= |t|
    ensures SectorImage(t, i) == EncodeWords(t)[SECTOR_BYTES * i..SECTOR_BYTES * (i + 1)]
  {
    forall j | 0 <= j < SECTOR_BYTES
      ensures SectorImage(t, i)[j] == EncodeWords(t)[SECTOR_BYTES * i..SECTOR_BYTES * (i + 1)][j]
    {
      assert t[ENTRIES * i..ENTRIES * (i + 1)][j / 4] == t[ENTRIES * i + j / 4];
      assert (SECTOR_BYTES * i + j) / 4 == ENTRIES * i + j / 4 && (SECTOR_BYTES * i + j) % 4 == j % 4;
    }
  }

  /** Reading the table back decodes exactly what was written. */
  lemma TableSurvivesDisk(l: Layout, s: Sectors, t: Table)
    requires WellFormed(s) && OnDisk(l, s, t)
    ensures DecodeWords(Assemble(s, TableSectors(l))) == t
  {
    var bytes := Assemble(s, TableSectors(l));
    forall k | 0 <= k < |bytes|
      ensures bytes[k] == EncodeWords(t)[k]
    {
      var i, j := k / SECTOR_BYTES, k % SECTOR_BYTES;
      assert k == SECTOR_BYTES * i + j;
      ImageIsSlice(t, i);
      assert s[FAT_START + i] == SectorImage(t, i);
    }
    assert bytes == EncodeWords(t);
    WordsSurviveBytes(t);
  }

  class SectorInfo {
    const number: nat
    var modified: bool

    constructor (number: nat)
      ensures this.number == number && !modified
    {
      this.number, modified := number, false;
    }
  }

  class FatTable {
    const disk: Disk
    const table: array<Word>
    const sectors: seq<SectorInfo>
    const eoc: Word

    ghost predicate Shape()
      reads this
    {
      && table.Length == ENTRIES * |sectors| == disk.layout.clusters && |sectors| == disk.layout.fatSectors
      && 2 <= table.Length <= EOC_FIRST && IsEoc(eoc)
      && (forall i, j :: 0 <= i < j < |sectors| ==> sectors[i] != sectors[j])
      && (forall i :: 0 <= i < |sectors| ==> sectors[i].number == FAT_START + i)
    }

    ghost predicate Clean(i: nat)
      reads this, disk, table
      requires Shape() && disk.Valid() && i < |sectors|
    {
      disk.layout.FatBeforeData();
      disk.sectors[FAT_START + i] == SectorImage(table[..], i)
    }

    /** Every sector not marked modified equals its copy on disk. */
    ghost predicate Valid()
      reads this, disk, table, sectors
    {
      && Shape() && disk.Valid()
      && forall i :: 0 <= i < |sectors| && !sectors[i].modified ==> Clean(i)
    }

    /** Reads the table from disk; the second entry is taken for the end mark. */
    constructor Read(disk: Disk)
      requires disk.Valid() && disk.layout.clusters == ENTRIES * disk.layout.fatSectors && disk.layout.clusters <= EOC_FIRST
      requires disk.layout.fatSectors >= 1
      requires FAT_START + disk.layout.fatSectors <= |disk.sectors|
      requires IsEoc(DecodeWords(Assemble(disk.sectors, TableSectors(disk.layout)))[1])
      modifies disk.network
      ensures Valid() && this.disk == disk && fresh(table) && fresh(sectors)
      ensures table[..] == DecodeWords(Assemble(disk.sectors, TableSectors(disk.layout)))
      ensures forall i :: 0 <= i < |sectors| ==> !sectors[i].modified
    {
      var bytes := disk.ReadSectors(TableSectors(disk.layout));
      var words := DecodeWords(bytes[..]);
      var list: seq<SectorInfo> := [];
      var current := FAT_START;
      while current <= FAT_START + disk.layout.fatSectors - 1
        invariant FAT_START <= current <= FAT_START + disk.layout.fatSectors
        invariant |list| == current - FAT_START && fresh(list)
        invariant forall i, j :: 0 <= i < j < |list| ==> list[i] != list[j]
        invariant forall i :: 0 <= i < |list| ==> list[i].number == FAT_START + i && !list[i].modified
      {
        var info := new SectorInfo(current);
        list := list + [info];
        current := current + 1;
      }
      this.disk, sectors, eoc := disk, list, words[1];
      table := new Word[|words|](i requires 0 <= i < |words| => words[i]);
      new;
      assert table[..] == words;
      forall i | 0 <= i < |sectors|
        ensures Clean(i)
      {
        DecodedImage(disk.layout, disk.sectors, i);
      }
    }

    /** The sector holding entry `k`, found by comparing addresses entry by entry. */
    method SearchSectorByPointer(k: nat) returns (found: SectorInfo?)
      requires Shape()
      ensures found == if k < table.Length then sectors[k / ENTRIES] else null
    {
      for s := 0 to |sectors|
        invariant ENTRIES * s <= k
      {
        for entry := 0 to ENTRIES
          invariant ENTRIES * s + entry <= k
        {
          if ENTRIES * s + entry == k {
            return sectors[s];
          }
        }
      }
      return null;
    }

    /** Overwrites one entry and marks its sector. */
    method SetEntry(k: nat, w: Word)
      requires Valid() && k < table.Length
      modifies table, sectors
      ensures Valid() && table[..] == old(table[..])[k := w]
      ensures sectors[k / ENTRIES].modified
      ensures forall i :: 0 <= i < |sectors| && i != k / ENTRIES ==> sectors[i].modified == old(sectors[i].modified)
    {
      ghost var before := table[..];
      table[k] := w;
      assert table[..] == before[k := w];
      var sector := SearchSectorByPointer(k);
      sector.modified := true;
      forall i | 0 <= i < |sectors| && !sectors[i].modified
        ensures Clean(i)
      {
        ImageKept(before, k, w, i);
      }
    }

    method SetUsedCluster(k: nat)
      requires Valid() && k < table.Length
      modifies table, sectors
      ensures Valid() && table[..] == old(table[..])[k := eoc]
      ensures forall i :: 0 <= i < |sectors| ==> sectors[i].modified == (old(sectors[i].modified) || i == k / ENTRIES)
    {
      SetEntry(k, eoc);
    }

    method SetFreeCluster(k: nat)
      requires Valid() && k < table.Length
      modifies table, sectors
      ensures Valid() && table[..] == old(table[..])[k := 0]
      ensures forall i :: 0 <= i < |sectors| ==> sectors[i].modified == (old(sectors[i].modified) || i == k / ENTRIES)
    {
      SetEntry(k, 0);
    }

    /** Whole chain from `first`; empty for cluster numbers 0 and 1 and for a free cluster. */
    method LinkedClusters(first: nat, ghost c: Chain) returns (list: seq<nat>)
      requires Valid() && first < table.Length
      requires if c == [] then first < 2 || table[first] == 0 else IsChain(table[..], c) && c[0] == first
      ensures list == c
    {
      list := [];
      var k := first;
      if k == 0 || k == 1 || table[k] == 0 {
        ChainEntriesAreUsed(table[..], c);
        return;
      }
      ghost var i := 0;
      while !IsEoc(table[k])
        invariant i < |c| && k == c[i] && list == c[..i]
        decreases |c| - i
      {
        NextInChain(table[..], c, i);
        list := list + [k];
        k, i := table[k], i + 1;
      }
      EndOfChain(table[..], c, i);
      list := list + [k];
    }

    method FreeClustersList() returns (list: seq<nat>)
      requires Valid()
      ensures list == FreeClusters(table[..], 2)
    {
      list := [];
      var k := 2;
      while k < table.Length
        invariant 2 <= k <= table.Length
        invariant list + FreeClusters(table[..], k) == FreeClusters(table[..], 2)
      {
        if table[k] == 0 {
          list := list + [k];
        }
        k := k + 1;
      }
    }

    /** Lowest free cluster, or 0 when the volume is full. */
    method NextFreeCluster() returns (k: nat)
      requires Valid()
      ensures k == if LowestFree(table[..]) < table.Length then LowestFree(table[..]) else 0
    {
      k := 2;
      while k < table.Length
        invariant 2 <= k <= table.Length && LowestFreeFrom(table[..], k) == LowestFree(table[..])
      {
        if table[k] == 0 {
          return;
        }
        k := k + 1;
      }
      return 0;
    }

    method LastLinked(first: nat, ghost c: Chain) returns (last: nat)
      requires Valid() && IsChain(table[..], c) && c[0] == first
      ensures last == c[|c| - 1]
    {
      last := first;
      ghost var i := 0;
      while !IsEoc(table[last])
        invariant i < |c| && last == c[i]
        decreases |c| - i
      {
        NextInChain(table[..], c, i);
        last, i := table[last], i + 1;
      }
      EndOfChain(table[..], c, i);
    }

    /** The entry of a cluster; asked for the successor of an end mark, answers the end mark. */
    method NextLinked(k: nat, ghost c: Chain, ghost i: nat) returns (next: nat)
      requires Valid() && (IsEoc(k) || (IsChain(table[..], c) && i < |c| && k == c[i]))
      ensures if !IsEoc(k) && i + 1 < |c| then next == c[i + 1] else IsEoc(next)
    {
      if IsEoc(k) {
        return eoc;
      }
      assert i + 1 < |c| ==> table[..][c[i]] == c[i + 1];
      next := table[k];
    }

    /** Appends the lowest free cluster to the chain. */
    method LinkFreeCluster(first: nat, ghost c: Chain) returns (appended: nat)
      requires Valid() && IsChain(table[..], c) && c[0] == first && FreeSet(table[..]) != {}
      modifies table, sectors
      ensures Valid() && appended == LowestFree(old(table[..])) < table.Length
      ensures table[..] == Link(old(table[..]), c, eoc)
      ensures forall i :: 0 <= i < |sectors| ==>
                sectors[i].modified == (old(sectors[i].modified) || i == c[|c| - 1] / ENTRIES || i == appended / ENTRIES)
    {
      var last := LastLinked(first, c);
      appended := ScanForFree();
      SetEntry(last, appended);
      SetEntry(appended, eoc);
    }

    /** The allocator's scan, which stops only at a free cluster. */
    method ScanForFree() returns (free: nat)
      requires Valid() && FreeSet(table[..]) != {}
      ensures free == LowestFree(table[..]) < table.Length
    {
      LowestFreeExists(table[..]);
      free := 2;
      while table[free] != 0
        invariant 2 <= free < table.Length && LowestFreeFrom(table[..], free) == LowestFree(table[..])
        decreases table.Length - free
      {
        free := free + 1;
      }
    }

    /** Frees the last cluster of the chain and returns its number, or 0 when it was the only one. */
    method RemoveLastLinkedCluster(first: nat, ghost c: Chain) returns (removed: nat)
      requires Valid() && IsChain(table[..], c) && c[0] == first
      modifies table, sectors
      ensures Valid() && removed == if |c| == 1 then 0 else c[|c| - 1]
      ensures table[..] == Unlink(old(table[..]), c, eoc)
      ensures forall i :: 0 <= i < |sectors| ==>
                sectors[i].modified == (old(sectors[i].modified) || i == c[|c| - 1] / ENTRIES
                                        || (1 < |c| && i == c[|c| - 2] / ENTRIES))
    {
      if IsEoc(table[first]) {
        EndOfChain(table[..], c, 0);
        SetEntry(first, 0);
        return 0;
      }
      NextInChain(table[..], c, 0);
      var before, last := LastTwo(first, c);
      SetEntry(last, 0);
      SetEntry(before, eoc);
      removed := last;
    }

    /** The last cluster of a chain and the one in front of it. */
    method LastTwo(first: nat, ghost c: Chain) returns (before: nat, last: nat)
      requires Valid() && IsChain(table[..], c) && c[0] == first && 1 < |c|
      ensures before == c[|c| - 2] && last == c[|c| - 1]
    {
      before, last := first, first;
      ghost var i := 0;
      while !IsEoc(table[last])
        invariant i < |c| && last == c[i] && before == c[if i == 0 then 0 else i - 1]
        decreases |c| - i
      {
        NextInChain(table[..], c, i);
        before := last;
        last, i := table[last], i + 1;
      }
      EndOfChain(table[..], c, i);
    }

    ghost function Marks(): (r: seq<bool>)
      reads this, sectors
      ensures |r| == |sectors|
    {
      seq(|sectors|, i requires 0 <= i < |sectors| reads this, sectors => sectors[i].modified)
    }

    lemma UnmarkedIsCurrent()
      requires Valid()
      ensures forall i :: 0 <= i < |sectors| && !Marks()[i] ==> disk.sectors[FAT_START + i] == Images(table[..])[i]
    {
      forall i | 0 <= i < |sectors| && !Marks()[i]
        ensures disk.sectors[FAT_START + i] == Images(table[..])[i]
      {
        assert Clean(i);
      }
    }

    /** Lists the modified sectors, clearing their marks. */
    method TakeModified() returns (writes: seq<SectorWrite>)
      requires Valid()
      modifies sectors
      ensures Shape() && disk.Valid() && (forall i :: 0 <= i < |sectors| ==> !sectors[i].modified)
      ensures ListsModified(writes, |sectors|, Images(table[..]), disk.sectors, old(Marks()))
    {
      disk.layout.FatBeforeData();
      ghost var images, s, marks := Images(table[..]), disk.sectors, Marks();
      UnmarkedIsCurrent();
      writes := [];
      var next := 0;
      while next < |sectors|
        invariant next <= |sectors| && ListsModified(writes, next, images, s, marks)
        invariant forall i :: 0 <= i < |sectors| ==> sectors[i].modified == (next <= i && marks[i])
      {
        writes := TakeOne(writes, next, images, s, marks);
        next := next + 1;
      }
    }

    /** Adds sector `i` to the list if it is marked, and clears the mark. */
    method TakeOne(writes: seq<SectorWrite>, i: nat, ghost images: seq<seq<byte>>, ghost s: Sectors, ghost marks: seq<bool>)
        returns (more: seq<SectorWrite>)
      requires Shape() && i < |sectors| && images == Images(table[..])
      requires ListsModified(writes, i, images, s, marks) && FAT_START + i < |s| && i < |marks|
      requires sectors[i].modified == marks[i] && (!marks[i] ==> s[FAT_START + i] == images[i])
      modifies sectors[i]
      ensures !sectors[i].modified && ListsModified(more, i + 1, images, s, marks)
    {
      var sector := sectors[i];
      more := writes;
      if sector.modified {
        ListOneMore(writes, i, images, s, marks);
        var data := ImageOf(i);
        more := writes + [SectorWrite(sector.number, data)];
        sector.modified := false;
      } else {
        ListNoMore(writes, i, images, s, marks);
      }
    }

    /** The bytes a sector of the table is written with. */
    method ImageOf(i: nat) returns (data: seq<byte>)
      requires Shape() && i < |sectors|
      ensures data == Images(table[..])[i]
    {
      data := EncodeWords(table[ENTRIES * i..ENTRIES * (i + 1)]);
      assert table[..][ENTRIES * i..ENTRIES * (i + 1)] == table[ENTRIES * i..ENTRIES * (i + 1)];
    }

    /** Writes the modified sectors, and only those, leaving the whole table on disk equal to the one in memory. */
    method WriteTable() returns (writes: seq<SectorWrite>)
      requires Valid()
      modifies sectors, disk`sectors, disk.network
      ensures Valid() && (forall i :: 0 <= i < |sectors| ==> !sectors[i].modified)
      ensures OnDisk(disk.layout, disk.sectors, table[..]) && disk.clusters == old(disk.clusters)
      ensures |disk.sectors| == |old(disk.sectors)|
      ensures forall i :: 0 <= i < |writes| ==>
                FAT_START <= writes[i].number < FAT_START + |sectors| && old(Marks())[writes[i].number - FAT_START]
    {
      writes := TakeModified();
      disk.layout.FatBeforeData();
      TableAfterWrites(disk.layout, disk.sectors, table[..], writes, old(Marks()));
      disk.WriteSectors(writes);
    }
  }

  /** Each write carries the image of a different marked sector among the first `n` of the table. */
  ghost predicate WritesImages(writes: seq<SectorWrite>, n: nat, images: seq<seq<byte>>, marks: seq<bool>) {
    && n <= |images| && n <= |marks|
    && (forall i :: 0 <= i < |writes| ==>
          && FAT_START <= writes[i].number < FAT_START + n && marks[writes[i].number - FAT_START]
          && writes[i].data == images[writes[i].number - FAT_START])
    && (forall i, j :: 0 <= i < j < |writes| ==> writes[i].number < writes[j].number)
  }

  /** A sector of the table that is not written holds its image already. */
  ghost predicate RestCurrent(writes: seq<SectorWrite>, n: nat, images: seq<seq<byte>>, s: Sectors) {
    && n <= |images| && FAT_START + n <= |s|
    && forall k :: FAT_START <= k < FAT_START + n && !Listed(writes, k) ==> s[k] == images[k - FAT_START]
  }

  /** `writes` brings the first `n` sectors of the table on disk up to date. */
  ghost predicate ListsModified(writes: seq<SectorWrite>, n: nat, images: seq<seq<byte>>, s: Sectors, marks: seq<bool>) {
    WritesImages(writes, n, images, marks) && RestCurrent(writes, n, images, s)
  }

  ghost predicate Listed(writes: seq<SectorWrite>, number: nat) {
    exists i :: 0 <= i < |writes| && writes[i].number == number
  }

  lemma ListOneMore(writes: seq<SectorWrite>, n: nat, images: seq<seq<byte>>, s: Sectors, marks: seq<bool>)
    requires ListsModified(writes, n, images, s, marks) && n < |images| && FAT_START + n < |s|
    requires n < |marks| && marks[n]
    ensures ListsModified(writes + [SectorWrite(FAT_START + n, images[n])], n + 1, images, s, marks)
  {
    var more := writes + [SectorWrite(FAT_START + n, images[n])];
    assert more[|writes|].number == FAT_START + n;
    forall number | Listed(writes, number)
      ensures Listed(more, number)
    {
      var i :| 0 <= i < |writes| && writes[i].number == number;
      assert more[i].number == number;
    }
    assert Listed(more, FAT_START + n);
  }

  lemma ListNoMore(writes: seq<SectorWrite>, n: nat, images: seq<seq<byte>>, s: Sectors, marks: seq<bool>)
    requires ListsModified(writes, n, images, s, marks) && n < |images| && FAT_START + n < |s| && n < |marks|
    requires s[FAT_START + n] == images[n]
    ensures ListsModified(writes, n + 1, images, s, marks)
  {
  }

  lemma ListedSector(s: Sectors, images: seq<seq<byte>>, writes: seq<SectorWrite>, n: nat, marks: seq<bool>, k: nat)
    requires WritesImages(writes, n, images, marks) && Listed(writes, k)
    requires forall i :: 0 <= i < |writes| ==> writes[i].number < |s|
    ensures FAT_START <= k < FAT_START + n && k < |s| && Written(s, writes)[k] == images[k - FAT_START]
  {
    var i :| 0 <= i < |writes| && writes[i].number == k;
    WrittenHere(s, writes, i);
  }

  lemma SectorAfterWrites(s: Sectors, images: seq<seq<byte>>, writes: seq<SectorWrite>, n: nat, marks: seq<bool>, k: nat)
    requires ListsModified(writes, n, images, s, marks) && k < |s|
    requires forall i :: 0 <= i < |writes| ==> writes[i].number < |s|
    ensures Written(s, writes)[k] == if FAT_START <= k < FAT_START + n then images[k - FAT_START] else s[k]
  {
    if Listed(writes, k) {
      ListedSector(s, images, writes, n, marks, k);
    } else {
      WrittenElsewhere(s, writes, k);
    }
  }

  lemma TableAfterWrites(l: Layout, s: Sectors, t: Table, writes: seq<SectorWrite>, marks: seq<bool>)
    requires Fits(l, s) && ListsModified(writes, l.fatSectors, Images(t), s, marks) && |t| == ENTRIES * l.fatSectors
    requires forall i :: 0 <= i < |writes| ==> writes[i].number < |s|
    ensures var r := Written(s, writes);
            && Fits(l, r) && OnDisk(l, r, t)
            && ClusterMap(l, r) == ClusterMap(l, s)
  {
    l.FatBeforeData();
    var r, images := Written(s, writes), Images(t);
    forall n | 0 <= n < |s|
      ensures r[n] == if FAT_START <= n < FAT_START + l.fatSectors then images[n - FAT_START] else s[n]
    {
      SectorAfterWrites(s, images, writes, l.fatSectors, marks, n);
    }
    assert WellFormed(r);
    forall d: nat | l.HasCluster(d)
      ensures ClusterBytes(l, r, d) == ClusterBytes(l, s, d)
    {
      SameClusterBytes(l, s, r, d);
    }
  }

  lemma SameClusterBytes(l: Layout, s: Sectors, r: Sectors, d: nat)
    requires Fits(l, s) && Fits(l, r) && |r| == |s| && l.HasCluster(d)
    requires forall n :: l.DataStart() <= n < |s| ==> r[n] == s[n]
    ensures ClusterBytes(l, r, d) == ClusterBytes(l, s, d)
  {
    forall k | 0 <= k < CLUSTER_BYTES
      ensures ClusterBytes(l, r, d)[k] == ClusterBytes(l, s, d)[k]
    {
      ClustersAreDisjoint(l, d, d, k / SECTOR_BYTES, k / SECTOR_BYTES);
    }
  }

  lemma DecodedImage(l: Layout, s: Sectors, i: nat)
    requires WellFormed(s) && i < l.fatSectors && FAT_START + l.fatSectors <= |s|
    ensures SectorImage(DecodeWords(Assemble(s, TableSectors(l))), i) == s[FAT_START + i]
  {
    AssembledSlice(s, TableSectors(l), i);
    var bytes := Assemble(s, TableSectors(l));
    assert |bytes| == 4 * (ENTRIES * l.fatSectors);
    ReencodedSlice(bytes, i);
  }

  lemma ReencodedSlice(bytes: seq<byte>, i: nat)
    requires SECTOR_BYTES * (i + 1) <= |bytes| && exists n :: |bytes| == 4 * n
    ensures SectorImage(DecodeWords(bytes), i) == bytes[SECTOR_BYTES * i..SECTOR_BYTES * (i + 1)]
  {
    BytesSurviveWords(bytes);
    ImageIsSlice(DecodeWords(bytes), i);
  }

  lemma ChainEntriesAreUsed(t: Table, c: Chain)
    requires c != [] ==> IsChain(t, c)
    ensures c != [] ==> 2 <= c[0] < |t| && t[c[0]] != 0
  {
    assert 1 < |c| ==> t[c[0]] == c[0 + 1];
  }

  lemma InnerEntries(t: Table, c: Chain)
    requires TableOk(t) && IsChain(t, c)
    ensures forall i :: 0 <= i < |c| - 1 ==> !IsEoc(t[c[i]])
  {
    forall i | 0 <= i < |c| - 1
      ensures !IsEoc(t[c[i]])
    {
      assert t[c[i]] == c[i + 1];
    }
  }

  lemma NextInChain(t: Table, c: Chain, i: nat)
    requires TableOk(t) && IsChain(t, c) && i < |c| && !IsEoc(t[c[i]])
    ensures i + 1 < |c| && t[c[i]] == c[i + 1]
  {
  }

  lemma EndOfChain(t: Table, c: Chain, i: nat)
    requires TableOk(t) && IsChain(t, c) && i < |c| && IsEoc(t[c[i]])
    ensures i == |c| - 1
  {
    InnerEntries(t, c);
  }
}
