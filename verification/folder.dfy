/** A directory on the disk: its slots say which files there are, and every operation on a file rewrites them. */
module Folders {
  import opened Bytes
  import opened Queues
  import opened Disks
  import opened FatChains
  import opened FatRuns
  import opened Fat32
  import FatTables
  import D = Directory
  import opened DirectoryEntries

  // ---------- what the slots say about the files ----------

  /** A record's entry gives the first cluster and the size of its file. */
  ghost predicate Describes(r: D.Record, e: DirEntry) {
    |r.entry| == D.SLOT && ClusterNumber(r.entry) == e.first && FileSize(r.entry) == e.size
  }

  /** Record `i` of the table is of file `files[i]`; no file has two. */
  ghost predicate Lists(t: DirTable, files: seq<nat>, entries: map<nat, DirEntry>) {
    && D.Tidy(t) && |files| == |D.ParseAll(t)|
    && (forall i :: 0 <= i < |files| && !D.ParseAll(t)[i].Dot? ==>
          files[i] in entries && Describes(D.ParseAll(t)[i], entries[files[i]]))
    && (forall i, j :: 0 <= i < j < |files| && !D.ParseAll(t)[i].Dot? && !D.ParseAll(t)[j].Dot? ==> files[i] != files[j])
  }

  /** The entry as an operation that leaves the file at `e` stores it: the cluster only when it changed, and the size. */
  function NewEntry(entry: D.Slot, e: DirEntry): (s: D.Slot)
    requires |entry| == D.SLOT && e.first < 0x1_0000_0000 && e.size < MAX_SIZE
    ensures |s| == D.SLOT
  {
    WithSize(if ClusterNumber(entry) == e.first then entry else WithCluster(entry, e.first), e.size)
  }

  lemma NewEntryDescribes(entry: D.Slot, e: DirEntry)
    requires |entry| == D.SLOT && e.first < 0x1_0000_0000 && e.size < MAX_SIZE
    ensures ClusterNumber(NewEntry(entry, e)) == e.first && FileSize(NewEntry(entry, e)) == e.size
    ensures NewEntry(entry, e)[0] == entry[0]
  {
    hide ClusterNumber, FileSize, WithSize, WithCluster;
    var was := if ClusterNumber(entry) == e.first then entry else WithCluster(entry, e.first);
    ClusterSurvivesUpdate(entry, e.first);
    SizeSurvivesUpdate(was, e.size);
  }

  lemma ListsAfterRewrite(t: DirTable, files: seq<nat>, entries: map<nat, DirEntry>, n: nat, e: DirEntry)
    requires Lists(t, files, entries) && n < |files| && !D.ParseAll(t)[n].Dot?
    requires e.first < 0x1_0000_0000 && e.size < MAX_SIZE
    ensures var r := D.ParseAll(t)[n];
            && |r.entry| == D.SLOT && D.SlotOf(r) + D.Width(r) <= D.SLOTS
            && var u := D.Rewritten(t, r, NewEntry(r.entry, e));
               && D.ParseAll(u) == D.ParseAll(t)[n := r.(entry := NewEntry(r.entry, e))]
               && Lists(u, files, entries[files[n] := e])
  {
    hide D.ParseAll, D.EndSlot, D.Rewritten, NewEntry, ClusterNumber, FileSize, D.SlotOf, D.Width;
    var r := D.ParseAll(t)[n];
    assert Describes(r, entries[files[n]]);
    NewEntryDescribes(r.entry, e);
    D.RewriteUpdates(t, n, NewEntry(r.entry, e));
  }

  lemma ListsAfterRemoval(t: DirTable, files: seq<nat>, entries: map<nat, DirEntry>, n: nat)
    requires Lists(t, files, entries) && n < |files| && !D.ParseAll(t)[n].Dot?
    ensures var r := D.ParseAll(t)[n];
            && D.SlotOf(r) + D.Width(r) <= D.SLOTS
            && var u := D.Removed(t, r);
               D.ParseAll(u) == RemoveAt(D.ParseAll(t), n) && Lists(u, RemoveAt(files, n), entries - {files[n]})
  {
    hide D.ParseAll, D.EndSlot, D.Removed, ClusterNumber, FileSize, D.SlotOf, D.Width;
    D.RemoveDrops(t, n);
    RemoveAtKeeps(files, n);
    RemoveAtKeeps(D.ParseAll(t), n);
  }

  lemma ListsAfterCreation(t: DirTable, files: seq<nat>, entries: map<nat, DirEntry>, f: nat, made: Edit)
    requires Lists(t, files, entries) && f !in entries && made.Make? && made.cluster == 0 && D.FirstZero(t, 0) + 2 < D.SLOTS
    ensures var z := D.FirstZero(t, 0);
            var u := D.Created(t, z, NameSlot(made.name), EntrySlotOf(made));
            && D.ParseAll(u) == D.ParseAll(t) + [D.Named(D.SLOT * z, NameSlot(made.name), EntrySlotOf(made))]
            && Lists(u, files + [f], entries[f := DirEntry(0, 0)])
  {
    hide D.ParseAll, D.EndSlot, D.Created, D.FirstZero, ClusterNumber, FileSize, NameSlot, EntrySlot;
    ClusterSurvivesEntry(made.name, made.stray, made.cluster, made.attr, made.at);
    D.CreateAppends(t, NameSlot(made.name), EntrySlotOf(made));
  }

  // ---------- the directory ----------

  class Folder {
    const fs: FileSystem
    /** The directory is itself a chain of the volume, of one cluster. */
    const id: nat
    const cluster: nat
    /** The file each record names. */
    var files: seq<nat>

    constructor (fs: FileSystem, id: nat, cluster: nat, files: seq<nat>)
      requires fs.Valid() && id in fs.chains && id !in fs.entries && fs.chains[id] == [cluster]
      requires cluster in fs.disk.clusters && |fs.disk.clusters[cluster]| == CLUSTER_BYTES
      requires Lists(Slots(fs.disk.clusters[cluster]), files, fs.entries)
      ensures Valid() && this.fs == fs && this.id == id && this.cluster == cluster && this.files == files
    {
      this.fs, this.id, this.cluster, this.files := fs, id, cluster, files;
    }

    ghost predicate Placed()
      reads fs, fs.disk, fs.fat, fs.fat.table, fs.fat.sectors
    {
      && fs.Valid() && id in fs.chains && id !in fs.entries && fs.chains[id] == [cluster]
      && cluster in fs.disk.clusters && |fs.disk.clusters[cluster]| == CLUSTER_BYTES
    }

    ghost function Table(): DirTable
      reads fs, fs.disk, fs.fat, fs.fat.table, fs.fat.sectors
      requires Placed()
    {
      Slots(fs.disk.clusters[cluster])
    }

    ghost predicate Valid()
      reads this, fs, fs.disk, fs.fat, fs.fat.table, fs.fat.sectors
    {
      Placed() && Lists(Table(), files, fs.entries)
    }

    ghost function Records(): seq<D.Record>
      reads this, fs, fs.disk, fs.fat, fs.fat.table, fs.fat.sectors
      requires Valid()
    {
      D.ParseAll(Table())
    }

    /** The directory's cluster is on the disk and belongs to no other file. */
    lemma OwnCluster()
      requires Placed()
      ensures fs.disk.layout.HasCluster(cluster) && cluster !in FreeSet(fs.fat.table[..])
      ensures forall g :: g in fs.chains && g != id ==> cluster !in fs.chains[g]
    {
      assert cluster in fs.chains[id];
      assert Owns(fs.Vol(), id, cluster);
      OwnedIsUsed(fs.Vol(), id, cluster);
      forall g | g in fs.chains && g != id
        ensures cluster !in fs.chains[g]
      {
        assert cluster in fs.chains[g] ==> Owns(fs.Vol(), g, cluster);
      }
    }

    /** The directory's cluster, read from the disk. */
    method Page() returns (page: DirCluster)
      requires Placed()
      modifies fs.disk.network
      ensures fresh(page) && page.Valid() && fresh(page.data) && page.Table() == Table()
    {
      OwnCluster();
      var buffer := fs.disk.ReadCluster(cluster);
      page := new DirCluster(buffer[..]);
    }

    /** Writes the directory's cluster back. */
    method Store(page: DirCluster)
      requires Placed() && page.Valid()
      modifies fs.disk, fs.disk.network
      ensures Placed() && Table() == page.Table()
      ensures fs.disk.clusters == old(fs.disk.clusters)[cluster := page.data[..]]
    {
      OwnCluster();
      fs.StoreCluster(cluster, page.data[..]);
    }

    /** A file's truncation touches only its own clusters and free ones. */
    static lemma DirectoryUntouched(data: Data, c: Chain, r: Chain, free: set<nat>, m: nat, size: nat, newSize: nat, k: nat)
      requires ChainResized(c, r, m, free) && k in data && k !in c && k !in free
      requires forall j :: j in data ==> |data[j]| == CLUSTER_BYTES
      ensures k in TruncatedData(data, c, r, size, newSize) && TruncatedData(data, c, r, size, newSize)[k] == data[k]
    {
      if |c| < |r| {
        assert forall i :: 0 <= i < |r| - |c| ==> r[|c|..][i] == r[|c| + i] && r[|c| + i] in free;
      }
    }

    /** The part of a truncation that works on the file leaves the directory's cluster alone. */
    method ResizeInPlace(f: nat, newSize: nat)
      requires Placed() && f in fs.entries && newSize < MAX_SIZE
      requires ClustersFor(newSize) <= |fs.chains[f]| + |FreeSet(fs.fat.table[..])|
      modifies fs, fs.fat.table, fs.fat.sectors, fs.disk, fs.disk.network
      ensures Placed() && Table() == old(Table())
      ensures Resized(old(fs.Vol()), fs.Vol(), f, ClustersFor(newSize))
      ensures f in fs.chains && fs.entries.Keys == old(fs.entries).Keys && fs.entries[f].size == newSize
      ensures fs.entries == old(fs.entries)[f := fs.entries[f]] && fs.entries[f].first < 0x1_0000_0000
      ensures fs.disk.clusters
              == TruncatedData(old(fs.disk.clusters), old(fs.chains[f]), fs.chains[f], old(fs.entries[f].size), newSize)
    {
      OwnCluster();
      ghost var data, c, free := fs.disk.clusters, fs.chains[f], FreeSet(fs.fat.table[..]);
      ghost var size := fs.entries[f].size;
      fs.ResizeFile(f, newSize);
      DirectoryUntouched(data, c, fs.chains[f], free, ClustersFor(newSize), size, newSize, cluster);
      FirstIsWord(f);
    }

    lemma FirstIsWord(f: nat)
      requires fs.Valid() && f in fs.entries
      ensures fs.entries[f].first < 0x1_0000_0000 && fs.entries[f].size < MAX_SIZE
    {
    }

    /** Rewrites a record's entry on the disk. */
    method RewriteEntry(r: D.Record, e: DirEntry)
      requires Placed() && |r.entry| == D.SLOT && e.first < 0x1_0000_0000 && e.size < MAX_SIZE
      requires r.offset == D.SLOT * D.SlotOf(r) && D.SlotOf(r) + D.Width(r) <= D.SLOTS
      modifies fs.disk, fs.disk.network
      ensures Placed() && Table() == D.Rewritten(old(Table()), r, NewEntry(r.entry, e))
      ensures fs.disk.clusters == old(fs.disk.clusters)[cluster := fs.disk.clusters[cluster]]
    {
      var page := Page();
      page.Update(r, NewEntry(r.entry, e));
      Store(page);
    }

    /** The record at a position, as a parse of the directory gives it. */
    method Find(n: nat) returns (r: D.Record)
      requires Valid() && n < |files|
      modifies fs.disk.network
      ensures Valid() && r == Records()[n]
    {
      var page := Page();
      var records := page.Interpret();
      r := records[n];
    }

    /** A truncation, with the entry rewritten in its place on the disk: the other records and the other files stay. */
    method Truncate(n: nat, newSize: nat) returns (size: nat)
      requires Valid() && n < |files| && !Records()[n].Dot? && newSize < MAX_SIZE && files[n] in fs.chains
      requires ClustersFor(newSize) <= |fs.chains[files[n]]| + |FreeSet(fs.fat.table[..])|
      modifies fs, fs.fat.table, fs.fat.sectors, fs.disk, fs.disk.network
      ensures Valid() && size == newSize && files[n] in fs.chains
      ensures Resized(old(fs.Vol()), fs.Vol(), files[n], ClustersFor(newSize))
      ensures fs.entries.Keys == old(fs.entries).Keys && files[n] in fs.entries && fs.entries[files[n]].size == newSize
      ensures fs.entries == old(fs.entries)[files[n] := fs.entries[files[n]]] && fs.entries[files[n]].first < 0x1_0000_0000
      ensures |old(Records())[n].entry| == D.SLOT
      ensures Records() == var rs := old(Records()); rs[n := rs[n].(entry := NewEntry(rs[n].entry, fs.entries[files[n]]))]
      ensures fs.disk.clusters
              == TruncatedData(old(fs.disk.clusters), old(fs.chains[files[n]]), fs.chains[files[n]],
                               old(fs.entries[files[n]].size), newSize)[cluster := fs.disk.clusters[cluster]]
      ensures FatTables.OnDisk(fs.disk.layout, fs.disk.sectors, fs.fat.table[..])
    {
      hide D.ParseAll, D.Tidy, D.Rewritten, NewEntry, Resized, TruncatedData, FatTables.OnDisk, Slots, Placed, Describes;
      RecordKnown(n);
      var f := files[n];
      var r := Find(n);
      ghost var t, entries := Table(), fs.entries;
      ResizeInPlace(f, newSize);
      var e := fs.entries[f];
      ListsAfterRewrite(t, files, entries, n, e);
      RewriteEntry(r, e);
      Save();
      size := newSize;
    }

    method Save()
      requires Placed()
      modifies fs.fat.sectors, fs.disk`sectors, fs.disk.network
      ensures Placed() && fs.disk.clusters == old(fs.disk.clusters) && Table() == old(Table())
      ensures FatTables.OnDisk(fs.disk.layout, fs.disk.sectors, fs.fat.table[..])
    {
      fs.SaveTable();
    }

    /** A removal, with the record's slots marked on the disk: it alone leaves the list, and its clusters the volume. */
    method Remove(n: nat)
      requires Valid() && n < |files| && !Records()[n].Dot?
      modifies this`files, fs, fs.fat.table, fs.fat.sectors, fs.disk, fs.disk.network
      ensures Valid() && files == RemoveAt(old(files), n) && Records() == RemoveAt(old(Records()), n)
      ensures old(files)[n] in old(fs.chains)
      ensures fs.Vol() == FatChains.Step(old(fs.Vol()), FatChains.Op.Remove(old(files)[n]), fs.fat.eoc)
      ensures fs.entries == old(fs.entries) - {old(files)[n]}
      ensures fs.disk.clusters == old(fs.disk.clusters)[cluster := fs.disk.clusters[cluster]]
    {
      hide D.ParseAll, D.Tidy, D.Removed, FatTables.OnDisk, Slots, Placed, Describes, RemoveAt, FatChains.Step;
      RecordKnown(n);
      var f := files[n];
      ghost var t, entries := Table(), fs.entries;
      var r := Find(n);
      var page := Page();
      page.Delete(r);
      ListsAfterRemoval(t, files, entries, n);
      RemoveFile(f);
      Store(page);
      files := RemoveAt(files, n);
    }

    method RemoveFile(f: nat)
      requires Placed() && f in fs.entries
      modifies fs, fs.fat.table, fs.fat.sectors, fs.disk, fs.disk.network
      ensures Placed() && f in old(fs.chains) && fs.Vol() == FatChains.Step(old(fs.Vol()), FatChains.Op.Remove(f), fs.fat.eoc)
      ensures fs.entries == old(fs.entries) - {f} && fs.disk.clusters == old(fs.disk.clusters)
    {
      fs.Remove(f);
    }

    /**
     * A new empty file, unless the cluster has no pair of slots for it. In the last two slots it leaves the directory
     * with nothing to stop the parse.
     */
    method Create(f: nat, made: Edit) returns (done: bool)
      requires Valid() && f !in fs.chains && made.Make? && made.cluster == 0
      modifies this`files, fs, fs.disk, fs.disk.network
      ensures Placed() && (done <==> D.FirstZero(old(Table()), 0) + 1 < D.SLOTS)
      ensures !done ==> Valid() && Records() == old(Records()) && fs.entries == old(fs.entries) && fs.chains == old(fs.chains)
      ensures done ==> fs.entries == old(fs.entries)[f := DirEntry(0, 0)]
      ensures done ==> fs.Vol() == FatChains.Step(old(fs.Vol()), FatChains.Op.Create(f), fs.fat.eoc)
      ensures done ==> Table() == D.Created(old(Table()), D.FirstZero(old(Table()), 0), NameSlot(made.name), EntrySlotOf(made))
      ensures done && D.FirstZero(old(Table()), 0) + 2 < D.SLOTS ==>
                && Valid() && files == old(files) + [f]
                && Records() == old(Records())
                   + [D.Named(D.SLOT * D.FirstZero(old(Table()), 0), NameSlot(made.name), EntrySlotOf(made))]
      ensures fs.disk.clusters == old(fs.disk.clusters)[cluster := fs.disk.clusters[cluster]]
    {
      hide D.ParseAll, D.Tidy, D.FirstZero, D.Created, Slots, NameSlot, EntrySlotOf, Placed, Describes, FatChains.Step;
      UnknownFile(f);
      ghost var t, entries := Table(), fs.entries;
      var page := Page();
      done := page.Make(NameSlot(made.name), EntrySlotOf(made));
      if done {
        CreateFile(f);
        Store(page);
        files := files + [f];
        if D.FirstZero(t, 0) + 2 < D.SLOTS {
          ListsAfterCreation(t, files[..|files| - 1], entries, f, made);
        }
      }
    }

    lemma UnknownFile(f: nat)
      requires Placed() && f !in fs.chains
      ensures f !in fs.entries && cluster in fs.disk.clusters
    {
    }

    method CreateFile(f: nat)
      requires Placed() && f !in fs.chains
      modifies fs
      ensures Placed() && fs.Vol() == FatChains.Step(old(fs.Vol()), FatChains.Op.Create(f), fs.fat.eoc)
      ensures fs.entries == old(fs.entries)[f := DirEntry(0, 0)]
    {
      fs.CreateFile(f);
    }

    lemma RecordKnown(n: nat)
      requires Valid() && n < |files| && !Records()[n].Dot?
      ensures files[n] in fs.entries && files[n] in fs.chains
      ensures var r := Records()[n];
              |r.entry| == D.SLOT && r.offset == D.SLOT * D.SlotOf(r) && D.SlotOf(r) + D.Width(r) <= D.SLOTS
    {
      D.RecordInside(Table(), n);
      D.RecordsPointBack(Table(), D.Start(Table()), n - D.Start(Table()));
    }
  }
}
