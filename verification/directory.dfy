/** A directory cluster: 32-byte slots parsed into file records, and the in-place edits that create and remove files. */
module Directory {
  import opened Bytes
  import opened Queues

  const SLOT := 32
  const SLOTS := 128

  type Slot = seq<byte>
  type Table = seq<Slot>

  predicate IsTable(t: Table) {
    |t| == SLOTS && forall i :: 0 <= i < SLOTS ==> |t[i]| == SLOT
  }

  const DELETED: byte := 0xE5
  const DOT: byte := 0x2E

  /** Low six bits 1 and top bit clear: the last long-name slot of a file, which its entry follows. */
  predicate IsName(b: byte) {
    b as int % 64 == 1 && b < 128
  }

  datatype Record =
    | Dot(offset: nat, entry: Slot)
    | Named(offset: nat, name: Slot, entry: Slot)
    | Short(offset: nat, entry: Slot)

  // ---------- parsing ----------

  /** Where the scan that starts at slot `i` comes to a slot that begins with zero, or the end of the cluster. */
  function EndSlot(t: Table, i: nat): (e: nat)
    requires forall j :: 0 <= j < |t| ==> t[j] != []
    ensures i <= |t| ==> i <= e <= |t|
    ensures e < |t| ==> t[e][0] == 0
    decreases |t| - i
  {
    if i >= |t| then |t|
    else if t[i][0] == 0 then i
    else if t[i][0] != DELETED && IsName(t[i][0]) then EndSlot(t, i + 2)
    else EndSlot(t, i + 1)
  }

  /** Records from slot `i` on, as far as the scan stays inside the cluster. */
  function Parse(t: Table, i: nat): seq<Record>
    requires forall j :: 0 <= j < |t| ==> t[j] != []
    decreases |t| - i
  {
    if i >= |t| || t[i][0] == 0 then []
    else if t[i][0] == DELETED then Parse(t, i + 1)
    else if IsName(t[i][0]) then
      if i + 1 < |t| then [Named(SLOT * i, t[i], t[i + 1])] + Parse(t, i + 2) else []
    else [Short(SLOT * i, t[i])] + Parse(t, i + 1)
  }

  /** A table that does not start with a dot is the root's; any other starts with the two dot entries. */
  function Start(t: Table): nat
    requires t != [] && t[0] != []
  {
    if t[0][0] == DOT then 2 else 0
  }

  function ParseAll(t: Table): seq<Record>
    requires 2 <= |t| && forall j :: 0 <= j < |t| ==> t[j] != []
  {
    (if Start(t) == 2 then [Dot(0, t[0]), Dot(SLOT, t[1])] else []) + Parse(t, Start(t))
  }

  /** First slot from `i` on that begins with zero: the only kind a signed comparison with 0xE5 lets a file go into. */
  function FirstZero(t: Table, i: nat): (z: nat)
    requires i <= |t| && forall j :: 0 <= j < |t| ==> t[j] != []
    ensures i <= z <= |t| && (z < |t| ==> t[z][0] == 0)
    ensures forall j :: i <= j < z ==> t[j][0] != 0
    decreases |t| - i
  {
    if i == |t| || t[i][0] == 0 then i else FirstZero(t, i + 1)
  }

  /** The scan stops at the first slot that begins with zero, if any, and all slots after it do too. */
  ghost predicate Packed(t: Table) {
    && IsTable(t)
    && EndSlot(t, Start(t)) == FirstZero(t, 0)
    && forall i :: FirstZero(t, 0) <= i < SLOTS ==> t[i][0] == 0
  }

  /** A packed table with a slot left to stop the scan. */
  ghost predicate Tidy(t: Table) {
    Packed(t) && FirstZero(t, 0) < SLOTS
  }

  /**
   * What the parse makes of a slot by its first byte: 0x00 ends the directory, 0xE5 is a deleted slot, 0x01 and 0x41 are
   * the long name of the entry in the next slot, and any other byte begins an entry of its own.
   */
  lemma FirstByteDecides(t: Table, i: nat)
    requires IsTable(t) && i < SLOTS
    ensures t[i][0] == 0x00 ==> Parse(t, i) == []
    ensures t[i][0] == 0xE5 ==> Parse(t, i) == Parse(t, i + 1)
    ensures t[i][0] in {0x01, 0x41} && i + 1 < SLOTS ==> Parse(t, i) == [Named(32 * i, t[i], t[i + 1])] + Parse(t, i + 2)
    ensures t[i][0] !in {0x00, 0xE5, 0x01, 0x41} ==> Parse(t, i) == [Short(32 * i, t[i])] + Parse(t, i + 1)
  {
    NameBytes(t[i][0]);
  }

  lemma NameBytes(b: byte)
    ensures IsName(b) <==> b == 0x01 || b == 0x41
  {
  }

  /** A directory that begins with 0x2E has its two dot entries first. */
  lemma DotsFirst(t: Table)
    requires IsTable(t)
    ensures t[0][0] == 0x2E ==> ParseAll(t) == [Dot(0, t[0]), Dot(32, t[1])] + Parse(t, 2)
    ensures t[0][0] != 0x2E ==> ParseAll(t) == Parse(t, 0)
  {
    assert [] + Parse(t, 0) == Parse(t, 0);
  }

  // ---------- edits ----------

  function Created(t: Table, z: nat, name: Slot, entry: Slot): Table
    requires z + 1 < |t|
  {
    t[z := name][z + 1 := entry]
  }

  function MarkDeleted(s: Slot): Slot
    requires s != []
  {
    s[0 := DELETED]
  }

  function SlotOf(r: Record): nat {
    r.offset / SLOT
  }

  /** The slots a record takes. */
  function Width(r: Record): nat {
    if r.Named? then 2 else 1
  }

  /** Marks the record's slots deleted: both when it has a long name, else the one. */
  ghost function Removed(t: Table, r: Record): Table
    requires IsTable(t) && SlotOf(r) + Width(r) <= SLOTS
  {
    var k := SlotOf(r);
    if r.Named? then t[k := MarkDeleted(t[k])][k + 1 := MarkDeleted(t[k + 1])] else t[k := MarkDeleted(t[k])]
  }

  /** Puts a new entry in the place of the record's own. */
  ghost function Rewritten(t: Table, r: Record, entry: Slot): Table
    requires IsTable(t) && SlotOf(r) + Width(r) <= SLOTS
  {
    if r.Named? then t[SlotOf(r) + 1 := entry] else t[SlotOf(r) := entry]
  }

  // ---------- what parsing sees after an edit ----------

  /** Where the scan goes on after slot `i`, and what it found there. */
  function NextSlot(t: Table, i: nat): nat
    requires i < |t| && t[i] != []
  {
    if t[i][0] != DELETED && IsName(t[i][0]) then i + 2 else i + 1
  }

  function FoundHere(t: Table, i: nat): seq<Record>
    requires i < |t| && t[i] != []
  {
    if t[i][0] == DELETED then []
    else if !IsName(t[i][0]) then [Short(SLOT * i, t[i])]
    else if i + 1 < |t| then [Named(SLOT * i, t[i], t[i + 1])]
    else []
  }

  lemma ParseStep(t: Table, i: nat)
    requires IsTable(t) && i < SLOTS && t[i][0] != 0
    ensures Parse(t, i) == FoundHere(t, i) + Parse(t, NextSlot(t, i)) && EndSlot(t, i) == EndSlot(t, NextSlot(t, i))
  {
    if t[i][0] == DELETED {
    } else if IsName(t[i][0]) {
    } else {
    }
  }

  lemma ParseStops(t: Table, i: nat)
    requires IsTable(t) && (i < SLOTS ==> t[i][0] == 0)
    ensures Parse(t, i) == [] && EndSlot(t, i) == if i < SLOTS then i else SLOTS
  {
  }

  lemma {:induction false} ParseSameBefore(t: Table, u: Table, i: nat, z: nat, more: Record)
    requires IsTable(t) && IsTable(u) && i <= z && z + 1 < SLOTS && EndSlot(t, i) == z
    requires forall j :: 0 <= j < z ==> u[j] == t[j]
    requires u[z][0] != 0 && u[z][0] != DELETED && IsName(u[z][0])
    requires (z + 2 < SLOTS ==> u[z + 2][0] == 0) && more == Named(SLOT * z, u[z], u[z + 1])
    ensures Parse(u, i) == Parse(t, i) + [more] && EndSlot(u, i) == z + 2
    decreases z - i
  {
    hide Parse, EndSlot, IsName;
    if i < z {
      assert t[i][0] != 0 by {
        if t[i][0] == 0 {
          ParseStops(t, i);
        }
      }
      ParseStep(t, i);
      ParseStep(u, i);
      var next := NextSlot(t, i);
      EndIsAhead(t, next);
      ParseSameBefore(t, u, next, z, more);
      assert FoundHere(u, i) == FoundHere(t, i);
    } else {
      EndIsZero(t, i);
      ParseStops(t, i);
      ParseStep(u, i);
      ParseStops(u, i + 2);
      assert FoundHere(u, i) == [more];
    }
  }

  lemma EndIsAhead(t: Table, i: nat)
    requires IsTable(t)
    ensures EndSlot(t, i) <= SLOTS && (i <= SLOTS ==> i <= EndSlot(t, i)) && (SLOTS < i ==> EndSlot(t, i) == SLOTS)
  {
  }

  lemma EndIsZero(t: Table, i: nat)
    requires IsTable(t) && EndSlot(t, i) == i < SLOTS
    ensures t[i][0] == 0
  {
  }

  /** Creating a file appends exactly its record and leaves the table packed. */
  lemma CreateAppends(t: Table, name: Slot, entry: Slot)
    requires Packed(t) && |name| == |entry| == SLOT && FirstZero(t, 0) + 1 < SLOTS
    requires name[0] != DELETED && IsName(name[0]) && entry[0] != 0
    ensures var z := FirstZero(t, 0);
            var u := Created(t, z, name, entry);
            Packed(u) && ParseAll(u) == ParseAll(t) + [Named(SLOT * z, name, entry)] && FirstZero(u, 0) == z + 2
  {
    var z := FirstZero(t, 0);
    var u := Created(t, z, name, entry);
    FirstZeroIs(u, z + 2);
    assert z == 0 ==> name[0] != DOT;
    StartKept(t, u, z);
    ParseSameBefore(t, u, Start(t), z, Named(SLOT * z, name, entry));
  }

  lemma FirstZeroIs(t: Table, z: nat)
    requires IsTable(t) && z <= SLOTS && (z < SLOTS ==> t[z][0] == 0) && forall j :: 0 <= j < z ==> t[j][0] != 0
    ensures FirstZero(t, 0) == z
  {
    var f := FirstZero(t, 0);
  }

  lemma StartKept(t: Table, u: Table, z: nat)
    requires IsTable(t) && IsTable(u) && EndSlot(t, Start(t)) == z == FirstZero(t, 0) < SLOTS
    requires (forall j :: 0 <= j < z ==> u[j] == t[j]) && (z == 0 ==> u[0][0] != DOT)
    ensures Start(u) == Start(t) <= z
    ensures Start(t) == 2 ==> u[0] == t[0] && u[1] == t[1]
  {
    assert Start(t) == 2 ==> t[0][0] == DOT;
  }

  /** The scan comes to a terminator after a creation exactly when the pair did not go into the last two slots. */
  lemma LastPairLeavesNoTerminator(t: Table, name: Slot, entry: Slot)
    requires Packed(t) && |name| == |entry| == SLOT && FirstZero(t, 0) + 1 < SLOTS
    requires name[0] != DELETED && IsName(name[0]) && entry[0] != 0
    ensures var u := Created(t, FirstZero(t, 0), name, entry);
            EndSlot(u, Start(u)) < SLOTS <==> FirstZero(t, 0) + 2 < SLOTS
  {
    CreateAppends(t, name, entry);
  }

  /** The record at position `r` of the scan from slot `i` points back at the slots it was read from. */
  lemma {:induction false} RecordsPointBack(t: Table, i: nat, r: nat)
    requires IsTable(t) && r < |Parse(t, i)|
    ensures var rec := Parse(t, i)[r];
            && rec.offset == SLOT * SlotOf(rec) && i <= SlotOf(rec) < EndSlot(t, i) <= SLOTS && !rec.Dot?
            && (rec.Named? ==> SlotOf(rec) + 1 < SLOTS && rec == Named(rec.offset, t[SlotOf(rec)], t[SlotOf(rec) + 1]))
            && (rec.Short? ==> rec == Short(rec.offset, t[SlotOf(rec)]))
    decreases SLOTS - i
  {
    if t[i][0] == DELETED {
      RecordsPointBack(t, i + 1, r);
    } else if 0 < r {
      RecordsPointBack(t, if IsName(t[i][0]) then i + 2 else i + 1, r - 1);
    }
  }

  lemma {:induction false} SameAfter(t: Table, u: Table, i: nat, from: nat)
    requires IsTable(t) && IsTable(u) && from <= i && forall j :: from <= j < SLOTS ==> u[j] == t[j]
    ensures Parse(u, i) == Parse(t, i) && EndSlot(u, i) == EndSlot(t, i)
    decreases SLOTS - i
  {
    if i < SLOTS && t[i][0] != 0 {
      SameAfter(t, u, i + 1, from);
      SameAfter(t, u, i + 2, from);
    }
  }

  /** `r` is the record the scan from slot `i` finds at position `n`. */
  ghost predicate FoundAt(t: Table, i: nat, n: nat, r: Record) {
    IsTable(t) && n < |Parse(t, i)| && Parse(t, i)[n] == r
  }

  /** The rest of a scan past its first record. */
  lemma FirstRecord(t: Table, i: nat)
    requires IsTable(t) && i < SLOTS && t[i][0] != 0 && t[i][0] != DELETED && Parse(t, i) != []
    ensures var r := Parse(t, i)[0];
            && SlotOf(r) == i && r.Named? == IsName(t[i][0]) && Parse(t, i) == [r] + Parse(t, i + Width(r))
            && EndSlot(t, i) == EndSlot(t, i + Width(r))
  {
  }

  lemma UntouchedFirst(t: Table, u: Table, i: nat, next: nat)
    requires IsTable(t) && IsTable(u) && i < SLOTS && t[i][0] != 0 && t[i][0] != DELETED && Parse(t, i) != []
    requires next == i + Width(Parse(t, i)[0]) && forall j :: i <= j < next && j < SLOTS ==> u[j] == t[j]
    ensures Parse(u, i) == [Parse(t, i)[0]] + Parse(u, next) && EndSlot(u, i) == EndSlot(u, next)
  {
  }

  lemma SkipDeleted(t: Table, i: nat)
    requires IsTable(t) && i < SLOTS && t[i][0] == DELETED
    ensures Parse(t, i) == Parse(t, i + 1) && EndSlot(t, i) == EndSlot(t, i + 1)
  {
  }

  lemma ScanIsInside(t: Table, i: nat, n: nat)
    requires IsTable(t) && n < |Parse(t, i)|
    ensures i < SLOTS && t[i][0] != 0
  {
  }

  /** Where a record found later starts, seen from the first record of the scan. */
  lemma FoundLater(t: Table, i: nat, n: nat, r: Record)
    requires FoundAt(t, i, n, r) && i < SLOTS && t[i][0] != 0 && t[i][0] != DELETED && 0 < n
    ensures var next := i + Width(Parse(t, i)[0]);
            FoundAt(t, next, n - 1, r) && next <= SlotOf(r) && Parse(t, i) == [Parse(t, i)[0]] + Parse(t, next)
  {
    FirstRecord(t, i);
    RecordsPointBack(t, i + Width(Parse(t, i)[0]), n - 1);
  }

  lemma FoundFirst(t: Table, i: nat, r: Record)
    requires FoundAt(t, i, 0, r) && i < SLOTS && t[i][0] != DELETED
    ensures SlotOf(r) == i && t[i][0] != 0 && r.Named? == IsName(t[i][0])
    ensures Parse(t, i) == [r] + Parse(t, i + Width(r)) && EndSlot(t, i) == EndSlot(t, i + Width(r))
  {
  }

  lemma RemovedSlots(t: Table, r: Record, i: nat)
    requires IsTable(t) && SlotOf(r) + Width(r) <= SLOTS && i < SLOTS
    ensures IsTable(Removed(t, r))
    ensures !(SlotOf(r) <= i < SlotOf(r) + Width(r)) ==> Removed(t, r)[i] == t[i]
    ensures SlotOf(r) <= i < SlotOf(r) + Width(r) ==> Removed(t, r)[i][0] == DELETED
  {
  }

  /** A removal writes the first byte of the record's slots and no other byte of the table. */
  lemma RemovalWritesMarks(t: Table, r: Record, i: nat, b: nat)
    requires IsTable(t) && SlotOf(r) + Width(r) <= SLOTS && i < SLOTS && b < 32
    ensures IsTable(Removed(t, r))
    ensures Removed(t, r)[i][b] == if b == 0 && SlotOf(r) <= i < SlotOf(r) + (if r.Named? then 2 else 1) then 0xE5 else t[i][b]
  {
  }

  lemma ParseWithoutFirst(t: Table, i: nat, r: Record)
    requires FoundAt(t, i, 0, r) && SlotOf(r) + Width(r) <= SLOTS && i < SLOTS && t[i][0] != DELETED
    ensures var u := Removed(t, r);
            IsTable(u) && Parse(u, i) == RemoveAt(Parse(t, i), 0) && EndSlot(u, i) == EndSlot(t, i)
  {
    var u := Removed(t, r);
    FoundFirst(t, i, r);
    RemovedSlots(t, r, i);
    RemovedSlots(t, r, if i + 1 < SLOTS then i + 1 else i);
    forall j | i + Width(r) <= j < SLOTS
      ensures u[j] == t[j]
    {
      RemovedSlots(t, r, j);
    }
    SameAfter(t, u, i + Width(r), i + Width(r));
  }

  /** Parsing after a removal drops that record and no other. */
  lemma {:induction false} ParseWithoutRecord(t: Table, i: nat, n: nat, r: Record)
    requires FoundAt(t, i, n, r) && SlotOf(r) + Width(r) <= SLOTS
    ensures var u := Removed(t, r);
            IsTable(u) && Parse(u, i) == RemoveAt(Parse(t, i), n) && EndSlot(u, i) == EndSlot(t, i)
    decreases SLOTS - i
  {
    hide Parse, EndSlot, Removed, IsName;
    ScanIsInside(t, i, n);
    if t[i][0] == DELETED {
      SkipDeleted(t, i);
      RecordsPointBack(t, i + 1, n);
      ParseWithoutRecord(t, i + 1, n, r);
      RemovedSlots(t, r, i);
      SkipDeleted(Removed(t, r), i);
    } else if n == 0 {
      ParseWithoutFirst(t, i, r);
    } else {
      FoundLater(t, i, n, r);
      var first := Parse(t, i)[0];
      ParseWithoutRecord(t, i + Width(first), n - 1, r);
      RemovedSlots(t, r, i);
      RemovedSlots(t, r, if i + 1 < SLOTS then i + 1 else i);
      FirstRecord(t, i);
      UntouchedFirst(t, Removed(t, r), i, i + Width(first));
    }
  }

  lemma RewrittenSlots(t: Table, r: Record, entry: Slot, i: nat)
    requires IsTable(t) && SlotOf(r) + Width(r) <= SLOTS && |entry| == SLOT && i < SLOTS
    requires !r.Named? ==> entry[0] == t[SlotOf(r)][0]
    ensures IsTable(Rewritten(t, r, entry))
    ensures !(SlotOf(r) <= i < SlotOf(r) + Width(r)) ==> Rewritten(t, r, entry)[i] == t[i]
    ensures i == SlotOf(r) && !r.Dot? ==> Rewritten(t, r, entry)[i][0] == t[i][0] && (r.Named? ==> Rewritten(t, r, entry)[i] == t[i])
    ensures i == SlotOf(r) + Width(r) - 1 ==> Rewritten(t, r, entry)[i] == entry
  {
  }

  lemma ParseWithFirstEntry(t: Table, i: nat, r: Record, entry: Slot)
    requires FoundAt(t, i, 0, r) && SlotOf(r) + Width(r) <= SLOTS && i < SLOTS && t[i][0] != DELETED && |entry| == SLOT
    requires !r.Named? ==> entry[0] == t[SlotOf(r)][0]
    ensures var u := Rewritten(t, r, entry);
            IsTable(u) && Parse(u, i) == Parse(t, i)[0 := r.(entry := entry)] && EndSlot(u, i) == EndSlot(t, i)
  {
    var u := Rewritten(t, r, entry);
    FoundFirst(t, i, r);
    RecordsPointBack(t, i, 0);
    RewrittenSlots(t, r, entry, i);
    RewrittenSlots(t, r, entry, if i + 1 < SLOTS then i + 1 else i);
    forall j | i + Width(r) <= j < SLOTS
      ensures u[j] == t[j]
    {
      RewrittenSlots(t, r, entry, j);
    }
    SameAfter(t, u, i + Width(r), i + Width(r));
  }

  /** Parsing after an entry is rewritten in place changes that record's entry and nothing else. */
  lemma {:induction false} ParseWithEntry(t: Table, i: nat, n: nat, r: Record, entry: Slot)
    requires FoundAt(t, i, n, r) && SlotOf(r) + Width(r) <= SLOTS && |entry| == SLOT
    requires !r.Named? ==> entry[0] == t[SlotOf(r)][0]
    ensures var u := Rewritten(t, r, entry);
            IsTable(u) && Parse(u, i) == Parse(t, i)[n := r.(entry := entry)] && EndSlot(u, i) == EndSlot(t, i)
    decreases SLOTS - i
  {
    hide Parse, EndSlot, Rewritten, IsName;
    ScanIsInside(t, i, n);
    if t[i][0] == DELETED {
      SkipDeleted(t, i);
      RecordsPointBack(t, i + 1, n);
      ParseWithEntry(t, i + 1, n, r, entry);
      RewrittenSlots(t, r, entry, i);
      SkipDeleted(Rewritten(t, r, entry), i);
    } else if n == 0 {
      ParseWithFirstEntry(t, i, r, entry);
    } else {
      FoundLater(t, i, n, r);
      var first := Parse(t, i)[0];
      ParseWithEntry(t, i + Width(first), n - 1, r, entry);
      RewrittenSlots(t, r, entry, i);
      RewrittenSlots(t, r, entry, if i + 1 < SLOTS then i + 1 else i);
      FirstRecord(t, i);
      UntouchedFirst(t, Rewritten(t, r, entry), i, i + Width(first));
    }
  }

  // ---------- whole tables ----------

  lemma FirstZeroKept(t: Table, u: Table)
    requires IsTable(t) && IsTable(u) && forall j :: 0 <= j < SLOTS ==> (u[j][0] == 0 <==> t[j][0] == 0)
    ensures FirstZero(u, 0) == FirstZero(t, 0)
  {
    FirstZeroIs(u, FirstZero(t, 0));
  }

  /** A record of a packed table lies between the dot entries and the first free slot. */
  lemma RecordInside(t: Table, n: nat)
    requires Packed(t) && n < |ParseAll(t)| && !ParseAll(t)[n].Dot?
    ensures var r := ParseAll(t)[n];
            && Start(t) <= SlotOf(r) && SlotOf(r) + Width(r) <= FirstZero(t, 0) <= SLOTS
            && Start(t) <= n && FoundAt(t, Start(t), n - Start(t), r)
            && t[SlotOf(r)][0] != 0 && (r.Named? ==> t[SlotOf(r) + 1][0] != 0)
            && (r.Named? ==> r == Named(r.offset, t[SlotOf(r)], t[SlotOf(r) + 1]))
            && (r.Short? ==> r == Short(r.offset, t[SlotOf(r)]))
  {
    RecordsPointBack(t, Start(t), n - Start(t));
    var r := ParseAll(t)[n];
    NamedFits(t, Start(t), n - Start(t));
  }

  lemma {:induction false} NamedFits(t: Table, i: nat, n: nat)
    requires IsTable(t) && n < |Parse(t, i)|
    ensures SlotOf(Parse(t, i)[n]) + Width(Parse(t, i)[n]) <= EndSlot(t, i)
    decreases SLOTS - i
  {
    if t[i][0] == DELETED {
      NamedFits(t, i + 1, n);
    } else if 0 < n {
      NamedFits(t, if IsName(t[i][0]) then i + 2 else i + 1, n - 1);
    }
  }

  /** Removing a file drops exactly its record; its slots are marked deleted and never handed out again. */
  lemma RemoveDrops(t: Table, n: nat)
    requires Packed(t) && n < |ParseAll(t)| && !ParseAll(t)[n].Dot?
    ensures SlotOf(ParseAll(t)[n]) + Width(ParseAll(t)[n]) <= SLOTS
    ensures var u := Removed(t, ParseAll(t)[n]);
            Packed(u) && ParseAll(u) == RemoveAt(ParseAll(t), n) && FirstZero(u, 0) == FirstZero(t, 0)
  {
    hide Parse, EndSlot, Removed;
    RecordInside(t, n);
    var r := ParseAll(t)[n];
    var u := Removed(t, r);
    RemovedSlots(t, r, 0);
    forall j | 0 <= j < SLOTS
      ensures u[j][0] == 0 <==> t[j][0] == 0
      ensures j < Start(t) ==> u[j] == t[j]
    {
      RemovedSlots(t, r, j);
    }
    FirstZeroKept(t, u);
    StartAfterEdit(t, u);
    ParseWithoutRecord(t, Start(t), n - Start(t), r);
  }

  /** An edit that leaves the dot entries alone, or only marks or rewrites the root's first slot, keeps the start. */
  lemma StartAfterEdit(t: Table, u: Table)
    requires IsTable(t) && IsTable(u) && (forall j :: 0 <= j < Start(t) ==> u[j] == t[j])
    requires Start(t) == 0 ==> u[0][0] == t[0][0] || u[0][0] == DELETED
    ensures Start(u) == Start(t)
  {
  }

  /** Rewriting an entry, as a truncation does, changes that record's entry and nothing else. */
  lemma RewriteUpdates(t: Table, n: nat, entry: Slot)
    requires Packed(t) && n < |ParseAll(t)| && !ParseAll(t)[n].Dot?
    requires |entry| == SLOT && ParseAll(t)[n].entry != [] && entry[0] == ParseAll(t)[n].entry[0]
    ensures SlotOf(ParseAll(t)[n]) + Width(ParseAll(t)[n]) <= SLOTS
    ensures var u := Rewritten(t, ParseAll(t)[n], entry);
            Packed(u) && FirstZero(u, 0) == FirstZero(t, 0) && ParseAll(u) == ParseAll(t)[n := ParseAll(t)[n].(entry := entry)]
  {
    hide Parse, EndSlot, Rewritten;
    RecordInside(t, n);
    var r := ParseAll(t)[n];
    var u := Rewritten(t, r, entry);
    RewrittenSlots(t, r, entry, 0);
    forall j | 0 <= j < SLOTS
      ensures u[j][0] == t[j][0]
      ensures j < Start(t) ==> u[j] == t[j]
    {
      RewrittenSlots(t, r, entry, j);
    }
    FirstZeroKept(t, u);
    StartAfterEdit(t, u);
    ParseWithEntry(t, Start(t), n - Start(t), r, entry);
  }
}
