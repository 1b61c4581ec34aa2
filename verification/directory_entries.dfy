/** What the slots of a file say, and the directory cluster they are written into. */
module DirectoryEntries {
  import opened Bytes
  import opened Directory
  import opened Queues

  const MAX_NAME := 12

  /** A name the long-name slot can hold: up to twelve ASCII characters, the first of them not a terminator. */
  predicate NameOk(name: seq<byte>) {
    1 <= |name| <= MAX_NAME && forall i :: 0 <= i < |name| ==> 0 < name[i] < 128
  }

  // ---------- long names ----------

  /** The name as thirteen 16-bit units, low byte first, filled up with zeros. */
  function NameUnits(name: seq<byte>): (u: seq<byte>)
    ensures |u| == 26
  {
    seq(26, i requires 0 <= i < 26 => if i % 2 == 0 && i / 2 < |name| then name[i / 2] else 0)
  }

  /** The slot of a name: sequence number 1 marked last, and the units in its three stretches. */
  function NameSlot(name: seq<byte>): (s: Slot)
    ensures |s| == SLOT && s[0] == 0x41
  {
    var u := NameUnits(name);
    [0x41] + u[..10] + [0x0F, 0, 0] + u[10..22] + [0, 0] + u[22..]
  }

  function UnitsOf(s: Slot): (u: seq<byte>)
    requires |s| == SLOT
    ensures |u| == 26
  {
    s[1..11] + s[14..26] + s[28..32]
  }

  /** Low bytes of the units up to the first zero. */
  function NameFrom(u: seq<byte>, i: nat): seq<byte>
    requires |u| == 26
    decreases 13 - i
  {
    if i >= 13 || u[2 * i] == 0 then [] else [u[2 * i]] + NameFrom(u, i + 1)
  }

  function NameOf(s: Slot): seq<byte>
    requires |s| == SLOT
  {
    NameFrom(UnitsOf(s), 0)
  }

  lemma UnitsSurviveSlot(name: seq<byte>)
    ensures UnitsOf(NameSlot(name)) == NameUnits(name)
  {
  }

  lemma {:induction false} NameFromUnits(name: seq<byte>, i: nat)
    requires NameOk(name) && i <= |name|
    ensures NameFrom(NameUnits(name), i) == name[i..]
    decreases |name| - i
  {
    if i < |name| {
      assert NameUnits(name)[2 * i] == name[i];
      NameFromUnits(name, i + 1);
    }
  }

  /** A name read back from its slot is the name it was made from. */
  lemma NameSurvivesSlot(name: seq<byte>)
    requires NameOk(name)
    ensures NameOf(NameSlot(name)) == name
  {
    UnitsSurviveSlot(name);
    NameFromUnits(name, 0);
    assert name[0..] == name;
  }

  /**
   * Where the long-name slot has what: its sequence byte, the attribute that marks it, no type, checksum or cluster, and
   * character `j` as a unit of two bytes in one of the three stretches, zero past the end of the name.
   */
  lemma NameSlotLayout(name: seq<byte>, j: nat)
    requires j < 13
    ensures var s := NameSlot(name);
            && s[0] == 0x41 && s[11] == 0x0F && s[12] == 0 && s[13] == 0 && s[26] == 0 && s[27] == 0
            && var at := if j < 5 then 1 + 2 * j else if j < 11 then 14 + 2 * (j - 5) else 28 + 2 * (j - 11);
               s[at] == (if j < |name| then name[j] else 0) && s[at + 1] == 0
  {
    var u := NameUnits(name);
    assert u[2 * j] == (if j < |name| then name[j] else 0) && u[2 * j + 1] == 0;
  }

  // ---------- entries ----------

  /** Creation time and date as the entry holds them. */
  datatype Stamp = Stamp(time: seq<byte>, date: seq<byte>) {
    predicate Valid() {
      |time| == 2 && |date| == 2
    }
  }

  /** Eight bytes copied from the name, its terminator, and, for a shorter name, whatever follows it in memory. */
  function DosName(name: seq<byte>, stray: seq<byte>): (r: seq<byte>)
    requires 8 <= |stray|
    ensures |r| == 8
  {
    (name + [0] + stray)[..8]
  }

  function EntrySlot(name: seq<byte>, stray: seq<byte>, cluster: Word, attr: byte, at: Stamp): (s: Slot)
    requires 8 <= |stray| && at.Valid()
    ensures |s| == SLOT
  {
    DosName(name, stray) + [0, 0, 0] + [attr] + [0, 0] + at.time + at.date + [0, 0]
    + [ByteOf(cluster, 2), ByteOf(cluster, 3)] + at.time + at.date + [ByteOf(cluster, 0), ByteOf(cluster, 1)] + [0, 0, 0, 0]
  }

  /** Where the entry has what, besides the cluster: name, attribute, creation and modification stamps, and zeros. */
  lemma EntryLayout(name: seq<byte>, stray: seq<byte>, cluster: Word, attr: byte, at: Stamp, i: nat)
    requires 8 <= |stray| && at.Valid() && i < 8
    ensures var e := EntrySlot(name, stray, cluster, attr, at);
            && e[i] == (if i < |name| then name[i] else if i == |name| then 0 else stray[i - |name| - 1])
            && e[8] == e[9] == e[10] == 0 && e[11] == attr && e[12] == e[13] == 0
            && e[14..16] == at.time && e[16..18] == at.date && e[18] == e[19] == 0
            && e[22..24] == at.time && e[24..26] == at.date
            && e[28] == e[29] == e[30] == e[31] == 0
  {
  }

  /** The cluster number, most significant byte first: high half, then low half, each stored low byte first. */
  function ClusterNumber(e: Slot): int
    requires |e| == SLOT
  {
    ((e[21] as int * 0x100 + e[20] as int) * 0x100 + e[27] as int) * 0x100 + e[26] as int
  }

  /** The entry with another first cluster, as a truncation stores it. */
  function WithCluster(e: Slot, cluster: Word): (s: Slot)
    requires |e| == SLOT
    ensures |s| == SLOT
  {
    e[26 := ByteOf(cluster, 0)][27 := ByteOf(cluster, 1)][20 := ByteOf(cluster, 2)][21 := ByteOf(cluster, 3)]
  }

  /** The low half of the cluster number is in bytes 26 and 27, the high half in 20 and 21, each low byte first. */
  lemma ClusterNumberIs(e: Slot)
    requires |e| == SLOT
    ensures ClusterNumber(e) == e[26] as int + 0x100 * e[27] as int + 0x1_0000 * e[20] as int + 0x100_0000 * e[21] as int
    ensures FileSize(e) == e[28] as int + 0x100 * e[29] as int + 0x1_0000 * e[30] as int + 0x100_0000 * e[31] as int
  {
  }

  /** The size in bytes, stored low byte first. */
  function FileSize(e: Slot): int
    requires |e| == SLOT
  {
    ((e[31] as int * 0x100 + e[30] as int) * 0x100 + e[29] as int) * 0x100 + e[28] as int
  }

  function WithSize(e: Slot, size: Word): (s: Slot)
    requires |e| == SLOT
    ensures |s| == SLOT
  {
    e[28 := ByteOf(size, 0)][29 := ByteOf(size, 1)][30 := ByteOf(size, 2)][31 := ByteOf(size, 3)]
  }

  lemma SizeSurvivesUpdate(e: Slot, size: Word)
    requires |e| == SLOT
    ensures FileSize(WithSize(e, size)) == size && ClusterNumber(WithSize(e, size)) == ClusterNumber(e)
    ensures forall i :: 0 <= i < 28 ==> WithSize(e, size)[i] == e[i]
  {
    WordSurvivesBytes(size);
  }

  lemma ClusterSurvivesEntry(name: seq<byte>, stray: seq<byte>, cluster: Word, attr: byte, at: Stamp)
    requires 8 <= |stray| && at.Valid()
    ensures ClusterNumber(EntrySlot(name, stray, cluster, attr, at)) == cluster
    ensures FileSize(EntrySlot(name, stray, cluster, attr, at)) == 0
  {
    var e := EntrySlot(name, stray, cluster, attr, at);
    assert e[20] == ByteOf(cluster, 2) && e[21] == ByteOf(cluster, 3) && e[26] == ByteOf(cluster, 0) && e[27] == ByteOf(cluster, 1);
    WordSurvivesBytes(cluster);
  }

  lemma ClusterSurvivesUpdate(e: Slot, cluster: Word)
    requires |e| == SLOT
    ensures ClusterNumber(WithCluster(e, cluster)) == cluster && FileSize(WithCluster(e, cluster)) == FileSize(e)
    ensures forall i :: 0 <= i < SLOT && i !in {20, 21, 26, 27} ==> WithCluster(e, cluster)[i] == e[i]
  {
    WordSurvivesBytes(cluster);
  }

  // ---------- runs ----------

  datatype Op =
    | Make(name: seq<byte>, stray: seq<byte>, cluster: Word, attr: byte, at: Stamp)
    | Delete(position: nat)
    | Update(position: nat, entry: Slot)
  {
    predicate Sane() {
      match this
      case Make(name, stray, _, _, at) => NameOk(name) && 8 <= |stray| && at.Valid()
      case Delete(_) => true
      case Update(_, entry) => |entry| == SLOT
    }
  }

  type Edit = op: Op | op.Sane() witness Delete(0)

  type DirTable = t: Table | IsTable(t) witness seq(SLOTS, _ => Zeros(SLOT))

  /** The search for a place stops before the last slot; removal and update name a file the parse found. */
  predicate Possible(t: DirTable, op: Edit) {
    match op
    case Make(_, _, _, _, _) => FirstZero(t, 0) + 1 < SLOTS
    case Delete(n) => n < |ParseAll(t)| && !ParseAll(t)[n].Dot?
    case Update(n, entry) =>
      n < |ParseAll(t)| && !ParseAll(t)[n].Dot? && ParseAll(t)[n].entry != [] && entry[0] == ParseAll(t)[n].entry[0]
  }

  ghost function Step(t: DirTable, op: Edit): DirTable
    requires Possible(t, op)
  {
    match op
    case Make(name, stray, cluster, attr, at) =>
      Created(t, FirstZero(t, 0), NameSlot(name), EntrySlot(name, stray, cluster, attr, at))
    case Delete(n) => RecordOnTable(t, n); Removed(t, ParseAll(t)[n])
    case Update(n, entry) => RecordOnTable(t, n); Rewritten(t, ParseAll(t)[n], entry)
  }

  lemma RecordOnTable(t: DirTable, n: nat)
    requires n < |ParseAll(t)| && !ParseAll(t)[n].Dot?
    ensures SlotOf(ParseAll(t)[n]) + Width(ParseAll(t)[n]) <= SLOTS
  {
    NamedFits(t, Start(t), n - if Start(t) == 2 then 2 else 0);
  }

  /** A directory as a list: its records, and the slot the next one goes to. */
  datatype Listing = Listing(files: seq<Record>, end: nat)

  function ListingOf(t: DirTable): Listing {
    Listing(ParseAll(t), FirstZero(t, 0))
  }

  /** What an operation does to the list. */
  function After(l: Listing, op: Edit): Listing {
    match op
    case Make(name, stray, cluster, attr, at) =>
      Listing(l.files + [Named(SLOT * l.end, NameSlot(name), EntrySlot(name, stray, cluster, attr, at))], l.end + 2)
    case Delete(n) => if n < |l.files| then l.(files := RemoveAt(l.files, n)) else l
    case Update(n, entry) => if n < |l.files| then l.(files := l.files[n := l.files[n].(entry := entry)]) else l
  }

  function Listed(l: Listing, ops: seq<Edit>): Listing {
    if ops == [] then l else After(Listed(l, ops[..|ops| - 1]), ops[|ops| - 1])
  }

  function Makes(ops: seq<Edit>): nat {
    if ops == [] then 0 else Makes(ops[..|ops| - 1]) + if ops[|ops| - 1].Make? then 1 else 0
  }

  lemma StepIsListStep(t: DirTable, op: Edit)
    requires Packed(t) && Possible(t, op)
    ensures Packed(Step(t, op)) && ListingOf(Step(t, op)) == After(ListingOf(t), op)
  {
    hide ParseAll, Removed, Rewritten, Created, Packed, FirstZero, NameSlot, EntrySlot;
    match op
    case Make(name, stray, cluster, attr, at) => CreateAppends(t, NameSlot(name), EntrySlotOf(op));
    case Delete(n) => RemoveDrops(t, n);
    case Update(n, entry) => RewriteUpdates(t, n, entry);
  }

  /** The slot a creation puts after the name: a file's own, never free to the scan. */
  function EntrySlotOf(op: Edit): (s: Slot)
    requires op.Make?
    ensures |s| == SLOT && s[0] != 0
  {
    EntrySlot(op.name, op.stray, op.cluster, op.attr, op.at)
  }

  ghost predicate IsRun(run: seq<DirTable>, ops: seq<Edit>) {
    && |run| == |ops| + 1 && Packed(run[0])
    && forall i :: 0 <= i < |ops| ==> Possible(run[i], ops[i]) && run[i + 1] == Step(run[i], ops[i])
  }

  /** Over every run the parsed directory is the list its operations make of the first one. */
  lemma {:induction false} DirectoryIsAList(run: seq<DirTable>, ops: seq<Edit>, i: nat)
    requires IsRun(run, ops) && i < |run|
    ensures Packed(run[i]) && ListingOf(run[i]) == Listed(ListingOf(run[0]), ops[..i])
  {
    hide ListingOf, After, Packed, Step, Possible;
    if 0 < i {
      DirectoryIsAList(run, ops, i - 1);
      assert Possible(run[i - 1], ops[i - 1]) && run[i] == Step(run[i - 1], ops[i - 1]);
      assert ops[..i][..i - 1] == ops[..i - 1] && ops[..i][i - 1] == ops[i - 1];
      StepIsListStep(run[i - 1], ops[i - 1]);
    }
  }

  lemma {:induction false} ListedEnd(l: Listing, ops: seq<Edit>)
    ensures Listed(l, ops).end == l.end + 2 * Makes(ops)
  {
    if ops != [] {
      ListedEnd(l, ops[..|ops| - 1]);
    }
  }

  /**
   * One cluster sees exactly as many creations as it has pairs of slots past its first terminator, whatever is removed
   * in between: another is possible if and only if there have been fewer. The scan keeps a terminator to stop at if and
   * only if those pairs do not fill the cluster to its last slot.
   */
  lemma CreationsAreLimited(run: seq<DirTable>, ops: seq<Edit>, i: nat, next: Edit)
    requires IsRun(run, ops) && i < |run| && next.Make?
    ensures Makes(ops[..i]) <= (SLOTS - FirstZero(run[0], 0)) / 2
    ensures Possible(run[i], next) <==> Makes(ops[..i]) < (SLOTS - FirstZero(run[0], 0)) / 2
    ensures Tidy(run[i]) <==> FirstZero(run[0], 0) + 2 * Makes(ops[..i]) < SLOTS
  {
    hide Packed, FirstZero, Step;
    DirectoryIsAList(run, ops, i);
    ListedEnd(ListingOf(run[0]), ops[..i]);
    assert FirstZero(run[i], 0) == FirstZero(run[0], 0) + 2 * Makes(ops[..i]);
  }

  /** A blank cluster takes 64 creations, the last of which leaves the parse no terminator. */
  lemma BlankClusterTakes64(run: seq<DirTable>, ops: seq<Edit>, i: nat, next: Edit)
    requires IsRun(run, ops) && i < |run| && next.Make? && FirstZero(run[0], 0) == 0
    ensures Makes(ops[..i]) <= 64 && (Possible(run[i], next) <==> Makes(ops[..i]) < 64)
    ensures Tidy(run[i]) <==> Makes(ops[..i]) < 64
  {
    hide Packed, Possible, Step;
    CreationsAreLimited(run, ops, i, next);
  }

  // ---------- the cluster buffer ----------

  const CLUSTER := 4096

  /** The slots of a directory cluster's bytes. */
  ghost function Slots(d: seq<byte>): (t: Table)
    requires |d| == CLUSTER
    ensures IsTable(t)
  {
    seq(SLOTS, k requires 0 <= k < SLOTS => d[SLOT * k..SLOT * k + SLOT])
  }

  lemma SlotsAfterCopy(d: seq<byte>, k: nat, s: Slot)
    requires |d| == CLUSTER && k < SLOTS && |s| == SLOT
    ensures Slots(Splice(d, SLOT * k, s)) == Slots(d)[k := s]
  {
    var e := Splice(d, SLOT * k, s);
    forall j | 0 <= j < SLOTS
      ensures e[SLOT * j..SLOT * j + SLOT] == if j == k then s else d[SLOT * j..SLOT * j + SLOT]
    {
    }
  }

  lemma SlotsAfterMark(d: seq<byte>, k: nat)
    requires |d| == CLUSTER && k < SLOTS
    ensures Slots(d[SLOT * k := DELETED]) == Slots(d)[k := MarkDeleted(Slots(d)[k])]
  {
    var e := d[SLOT * k := DELETED];
    forall j | 0 <= j < SLOTS
      ensures e[SLOT * j..SLOT * j + SLOT] == if j == k then MarkDeleted(Slots(d)[k]) else d[SLOT * j..SLOT * j + SLOT]
    {
    }
  }

  lemma ScanDeleted(t: Table, i: nat, files: seq<Record>)
    requires IsTable(t) && i < SLOTS && t[i][0] == DELETED && EndSlot(t, i) < SLOTS
    ensures i + 1 < SLOTS && EndSlot(t, i + 1) < SLOTS && files + Parse(t, i) == files + Parse(t, i + 1)
  {
    SkipDeleted(t, i);
    hide EndSlot, Parse;
  }

  lemma ScanNamed(t: Table, i: nat, files: seq<Record>)
    requires IsTable(t) && i < SLOTS && t[i][0] != 0 && t[i][0] != DELETED && IsName(t[i][0]) && EndSlot(t, i) < SLOTS
    ensures i + 2 < SLOTS && EndSlot(t, i + 2) < SLOTS
    ensures files + Parse(t, i) == files + [Named(SLOT * i, t[i], t[i + 1])] + Parse(t, i + 2)
  {
    assert EndSlot(t, i) == EndSlot(t, i + 2);
    assert Parse(t, i) == [Named(SLOT * i, t[i], t[i + 1])] + Parse(t, i + 2);
    hide EndSlot, Parse;
  }

  lemma ScanShort(t: Table, i: nat, files: seq<Record>)
    requires IsTable(t) && i < SLOTS && t[i][0] != 0 && t[i][0] != DELETED && !IsName(t[i][0]) && EndSlot(t, i) < SLOTS
    ensures i + 1 < SLOTS && EndSlot(t, i + 1) < SLOTS
    ensures files + Parse(t, i) == files + [Short(SLOT * i, t[i])] + Parse(t, i + 1)
  {
    assert EndSlot(t, i) == EndSlot(t, i + 1);
    assert Parse(t, i) == [Short(SLOT * i, t[i])] + Parse(t, i + 1);
    hide EndSlot, Parse;
  }

  lemma ScanStart(t: Table)
    requires IsTable(t)
    ensures t[0][0] == DOT ==> Start(t) == 2 && ParseAll(t) == [Dot(0, t[0]), Dot(SLOT, t[1])] + Parse(t, 2)
    ensures t[0][0] != DOT ==> Start(t) == 0 && ParseAll(t) == [] + Parse(t, 0)
  {
  }

  lemma ScanEnd(t: Table, i: nat, files: seq<Record>)
    requires IsTable(t) && i < SLOTS && t[i][0] == 0
    ensures files + Parse(t, i) == files
  {
  }

  class DirCluster {
    const data: array<byte>

    ghost predicate Valid()
      reads this
    {
      data.Length == CLUSTER
    }

    ghost function Table(): Table
      reads this, data
      requires Valid()
    {
      Slots(data[..])
    }

    constructor (bytes: seq<byte>)
      requires |bytes| == CLUSTER
      ensures Valid() && fresh(data) && Table() == Slots(bytes)
    {
      data := new byte[CLUSTER](i requires 0 <= i < CLUSTER => bytes[i]);
      new;
      assert data[..] == bytes;
    }

    method SlotAt(k: nat) returns (s: Slot)
      requires Valid() && k < SLOTS
      ensures s == Table()[k]
    {
      s := data[SLOT * k..SLOT * k + SLOT];
      assert data[..][SLOT * k..SLOT * k + SLOT] == s;
    }

    method CopyIn(k: nat, s: Slot)
      requires Valid() && k < SLOTS && |s| == SLOT
      modifies data
      ensures Table() == old(Table())[k := s]
    {
      SlotsAfterCopy(data[..], k, s);
      ghost var was := data[..];
      forall j | 0 <= j < SLOT {
        data[SLOT * k + j] := s[j];
      }
      assert data[..] == Splice(was, SLOT * k, s);
    }

    method Mark(k: nat)
      requires Valid() && k < SLOTS
      modifies data
      ensures Table() == old(Table())[k := MarkDeleted(old(Table())[k])]
    {
      SlotsAfterMark(data[..], k);
      ghost var was := data[..];
      data[SLOT * k] := DELETED;
      assert data[..] == was[SLOT * k := DELETED];
    }

    /** Walks the slots up to the terminator; without one the walk would leave the buffer. */
    method Interpret() returns (files: seq<Record>)
      requires Valid() && EndSlot(Table(), Start(Table())) < SLOTS
      ensures files == ParseAll(Table())
    {
      hide Slots, EndSlot, Parse, ParseAll, Start, IsName;
      ghost var t := Table();
      ScanStart(t);
      files := [];
      var i := 0;
      var s := SlotAt(0);
      if s[0] == DOT {
        var parent := SlotAt(1);
        files := [Dot(0, s), Dot(SLOT, parent)];
        i := 2;
        s := SlotAt(2);
      }
      while s[0] != 0
        invariant i < SLOTS && s == t[i] && EndSlot(t, i) < SLOTS
        invariant ParseAll(t) == files + Parse(t, i)
        decreases SLOTS - i
      {
        if s[0] == DELETED {
          ScanDeleted(t, i, files);
          i := i + 1;
        } else if IsName(s[0]) {
          ScanNamed(t, i, files);
          var entry := SlotAt(i + 1);
          files := files + [Named(SLOT * i, s, entry)];
          i := i + 2;
        } else {
          ScanShort(t, i, files);
          files := files + [Short(SLOT * i, s)];
          i := i + 1;
        }
        s := SlotAt(i);
      }
      ScanEnd(t, i, files);
    }

    /** Puts a pair at the first slot that begins with zero, unless that is the last slot or there is none. */
    method Make(name: Slot, entry: Slot) returns (done: bool)
      requires Valid() && |name| == |entry| == SLOT
      modifies data
      ensures done <==> FirstZero(old(Table()), 0) + 1 < SLOTS
      ensures Table() == if done then Created(old(Table()), FirstZero(old(Table()), 0), name, entry) else old(Table())
    {
      var i := 0;
      done := false;
      while i != SLOTS - 1
        invariant i <= SLOTS - 1 && Table() == old(Table())
        invariant FirstZero(Table(), i) == FirstZero(Table(), 0)
      {
        var s := SlotAt(i);
        if s[0] == 0 {
          CopyIn(i, name);
          CopyIn(i + 1, entry);
          done := true;
          return;
        }
        i := i + 1;
      }
    }

    /** Marks a record's slots deleted, at the offset the parse gave it. */
    method Delete(r: Record)
      requires Valid() && r.offset == SLOT * SlotOf(r) && SlotOf(r) + Width(r) <= SLOTS
      modifies data
      ensures Table() == Removed(old(Table()), r)
    {
      Mark(r.offset / SLOT);
      if r.Named? {
        Mark(r.offset / SLOT + 1);
      }
    }

    method Update(r: Record, entry: Slot)
      requires Valid() && r.offset == SLOT * SlotOf(r) && SlotOf(r) + Width(r) <= SLOTS && |entry| == SLOT
      modifies data
      ensures Table() == Rewritten(old(Table()), r, entry)
    {
      if r.Named? {
        CopyIn(r.offset / SLOT + 1, entry);
      } else {
        CopyIn(r.offset / SLOT, entry);
      }
    }
  }
}
