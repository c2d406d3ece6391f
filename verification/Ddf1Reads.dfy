/** What a host reads from the DDF1 tables after their conversion, lib/format/ddf/ddf1_cvt.c:
    the numbers that are there in the byte order of the disk.
 */
module Ddf1Reads {
  import opened Bits
  import opened Buffers
  import opened ByteOrder
  import opened Ddf1Fields
  import opened Ddf1Tables
  import opened Ddf1Cvt
  import opened Ddf1Records
  import opened Ddf1Image
  import opened Ddf1Members
  import opened Structs

  // ---------------------------------------------------------- single tables

  /** The header of a disk. */
  lemma HeaderReads(s: seq<byte>, big: bool)
    requires |s| == HEADER_SIZE
    ensures Reads(HEADER_MEMBERS, s, CvtHeader(s), big)
  {
    hide CvtFields, Fields, Reads, Offset;
    HeaderFields();
    HeaderPlaced();
    StructureReads(HEADER_MEMBERS, HEADER, s, big);
  }

  /** The adapter data; what follows the first members is left alone. */
  lemma AdapterReads(s: seq<byte>, big: bool)
    requires |s| >= 40
    ensures Reads(ADAPTER_MEMBERS, s, CvtAdapter(s), big)
    ensures forall p :: 40 <= p < |s| ==> CvtAdapter(s)[p] == s[p]
  {
    hide CvtFields, Fields, Reads, Offset;
    AdapterFields();
    StructureReads(ADAPTER_MEMBERS, ADAPTER, s, big);
  }

  /** The disk data. */
  lemma DiskDataReads(s: seq<byte>, big: bool)
    requires |s| >= 36
    ensures Reads(DISK_DATA_MEMBERS, s, CvtDiskData(s), big)
    ensures forall p :: 36 <= p < |s| ==> CvtDiskData(s)[p] == s[p]
  {
    hide CvtFields, Fields, Reads, Offset;
    DiskDataFields();
    StructureReads(DISK_DATA_MEMBERS, DISK_DATA, s, big);
  }

  // ------------------------------------------------------ tables with entries

  function FixedMembers(l: Layout): seq<Group> {
    match l
    case PhysDrives => DRIVES_MEMBERS
    case VirtDrives => DRIVES_MEMBERS
    case Spares => SPARES_MEMBERS
    case Config(_) => CONFIG_MEMBERS
  }

  function EntryMembers(l: Layout): seq<Group>
    requires !l.Config?
  {
    match l
    case PhysDrives => PHYS_DRIVE_MEMBERS
    case VirtDrives => VIRT_DRIVE_MEMBERS
    case Spares => SPARE_MEMBERS
  }

  lemma FixedTotal(l: Layout)
    ensures Total(FixedMembers(l)) == FixedSize(l) && Fields(RunsOf(FixedMembers(l), |FixedMembers(l)|)) == FixedPart(l)
  {
    hide Fields, RunsOf, Offset;
    match l
    case PhysDrives => DrivesFields();
    case VirtDrives => DrivesFields();
    case Spares => SparesFields();
    case Config(_) => ConfigFields();
  }

  lemma FixedReads(l: Layout, s: seq<byte>, big: bool)
    requires FixedSize(l) <= |s|
    ensures var t := CvtFixed(l, s);
      Reads(FixedMembers(l), s, t, big) && forall p :: FixedSize(l) <= p < |s| ==> t[p] == s[p]
  {
    hide CvtFields, Fields, Reads, Offset, RunsOf;
    FixedTotal(l);
    StructureReads(FixedMembers(l), RunsOf(FixedMembers(l), |FixedMembers(l)|), s, big);
  }

  // The i-th of equally long entries.
  function EntryAt(base: nat, size: nat, i: nat): nat {
    base + size * i
  }

  lemma EntriesApart(base: nat, size: nat, i: nat, n: nat)
    requires i < n
    ensures base <= EntryAt(base, size, i)
    ensures EntryAt(base, size, i) + size == EntryAt(base, size, i + 1) <= EntryAt(base, size, n)
  {
    assert size * (i + 1) <= size * n;
    assert size * (i + 1) == size * i + size;
  }

  predicate EntryConverted(s: seq<byte>, t: seq<byte>, row: seq<Field>, at: nat, size: nat)
    requires AllUsable(row, size)
  {
    && at + size <= |s| && at + size <= |t|
    && Part(t, at, size) == CvtFields(Part(s, at, size), row)
  }

  predicate EntriesConverted(s: seq<byte>, t: seq<byte>, row: seq<Field>, base: nat, size: nat, n: nat)
    requires AllUsable(row, size)
  {
    && |t| == |s| && EntryAt(base, size, n) <= |s|
    && (forall p :: 0 <= p < |s| && !(base <= p < EntryAt(base, size, n)) ==> t[p] == s[p])
    && forall i :: 0 <= i < n ==> EntryConverted(s, t, row, EntryAt(base, size, i), size)
  }

  lemma {:induction false} RowsConvert(s: seq<byte>, row: seq<Field>, base: nat, size: nat, n: nat)
    requires AllUsable(row, size) && EntryAt(base, size, n) <= |s|
    ensures AllUsable(Rows(row, base, size, n), |s|)
    ensures EntriesConverted(s, CvtFields(s, Rows(row, base, size, n)), row, base, size, n)
    decreases n
  {
    hide AllUsable, CvtFields, EntryConverted;
    if n == 0 {
      NoRows(s, row, base, size);
    } else {
      var at := EntryAt(base, size, n - 1);
      EntriesApart(base, size, n - 1, n);
      RowsConvert(s, row, base, size, n - 1);
      var before := Rows(row, base, size, n - 1);
      var u := CvtFields(s, before);
      CvtFieldsShifted(u, row, at, size);
      JoinUsable(before, Shift(row, at), |s|);
      CvtFieldsConcat(s, before, Shift(row, at));
      OneMoreEntry(s, u, CvtFields(Part(u, at, size), row), row, base, size, n);
    }
  }

  lemma NoRows(s: seq<byte>, row: seq<Field>, base: nat, size: nat)
    ensures Rows(row, base, size, 0) == [] && AllUsable([], |s|) && CvtFields(s, []) == s
  {
  }

  lemma JoinUsable(a: seq<Field>, b: seq<Field>, len: nat)
    requires AllUsable(a, len) && AllUsable(b, len)
    ensures AllUsable(a + b, len)
  {
  }

  lemma OneMoreEntry(s: seq<byte>, u: seq<byte>, e: seq<byte>, row: seq<Field>, base: nat, size: nat, n: nat)
    requires AllUsable(row, size) && n > 0 && EntriesConverted(s, u, row, base, size, n - 1)
    requires EntryAt(base, size, n - 1) + size == EntryAt(base, size, n) <= |s| && |e| == size
    requires e == CvtFields(Part(u, EntryAt(base, size, n - 1), size), row)
    ensures EntriesConverted(s, Splice(u, EntryAt(base, size, n - 1), e), row, base, size, n)
  {
    hide CvtFields, AllUsable, Splice, EntryConverted;
    var at := EntryAt(base, size, n - 1);
    var t := Splice(u, at, e);
    LastEntry(s, u, e, row, base, at, size);
    forall i | 0 <= i < n - 1 ensures EntryConverted(s, t, row, EntryAt(base, size, i), size) {
      EntriesApart(base, size, i, n - 1);
      EarlierEntry(s, u, e, row, EntryAt(base, size, i), at, size);
    }
  }

  lemma LastEntry(s: seq<byte>, u: seq<byte>, e: seq<byte>, row: seq<Field>, base: nat, at: nat, size: nat)
    requires AllUsable(row, size) && base <= at && at + size <= |s| == |u| && |e| == size
    requires e == CvtFields(Part(u, at, size), row)
    requires forall p :: 0 <= p < |s| && !(base <= p < at) ==> u[p] == s[p]
    ensures EntryConverted(s, Splice(u, at, e), row, at, size)
    ensures forall p :: 0 <= p < |s| && !(base <= p < at + size) ==> Splice(u, at, e)[p] == s[p]
  {
    hide CvtFields, AllUsable;
    PartOfSplice(u, at, e);
    assert Part(u, at, size) == Part(s, at, size);
  }

  lemma EarlierEntry(s: seq<byte>, u: seq<byte>, e: seq<byte>, row: seq<Field>, o: nat, at: nat, size: nat)
    requires AllUsable(row, size) && o + size <= at && at + size <= |u| && |e| == size
    requires EntryConverted(s, u, row, o, size)
    ensures EntryConverted(s, Splice(u, at, e), row, o, size)
  {
    hide CvtFields, AllUsable;
    assert Part(Splice(u, at, e), o, size) == Part(u, o, size);
  }

  // ------------------------------------------------------------- one entry

  // An entry is translated; the number of a virtual drive is lost.
  predicate EntryReads(l: Layout, p: seq<byte>, q: seq<byte>, big: bool)
    requires !l.Config?
  {
    if l.VirtDrives? then
      var ms, o := VIRT_DRIVE_MEMBERS, Offset(VIRT_DRIVE_MEMBERS, VD_NUM);
      && (forall k :: 0 <= k < |ms| && k != VD_NUM ==> ReadsAt(ms, k, p, q, big))
      && o + 2 <= |q| && Part(q, o, 2) == [0, 0]
    else Reads(EntryMembers(l), p, q, big)
  }

  function RowOf(l: Layout): (r: seq<Field>)
    requires !l.Config?
    ensures AllUsable(r, if l.Spares? then 32 else 64)
  {
    match l
    case PhysDrives => PHYS_DRIVE
    case VirtDrives => VIRT_DRIVE
    case Spares => SPARE
  }

  lemma VirtDriveReads(p: seq<byte>, big: bool)
    requires |p| == 64
    ensures EntryReads(VirtDrives, p, CvtFields(p, VIRT_DRIVE), big)
  {
    hide CvtField, Fields, RunsOf, Load;
    var f := VIRT_DRIVE[0];
    var u := CvtField(p, f);
    NumberCleared(p);
    VirtDriveFields();
    assert VIRT_DRIVE[1..] == [Field(28, 4, 4)];
    StructureReads(NAMELESS_MEMBERS, RunsOf(NAMELESS_MEMBERS, 3), u, big);
    NumberApart(p, u, CvtFields(u, [Field(28, 4, 4)]), big);
  }

  lemma NumberCleared(p: seq<byte>)
    requires |p| == 64
    ensures var u := CvtField(p, Field(24, 2, 4));
      && Part(u, 24, 2) == [0, 0] && Part(u, 0, 24) == Part(p, 0, 24) && Part(u, 26, 38) == Part(p, 26, 38)
  {
    assert Swapped(Part(p, 24, 2), 4) == [0, 0];
  }

  lemma NumberApart(p: seq<byte>, u: seq<byte>, q: seq<byte>, big: bool)
    requires |p| == |u| == |q| == 64
    requires Part(u, 24, 2) == [0, 0] && Part(u, 0, 24) == Part(p, 0, 24) && Part(u, 26, 38) == Part(p, 26, 38)
    requires Reads(NAMELESS_MEMBERS, u, q, big)
    ensures EntryReads(VirtDrives, p, q, big)
  {
    hide Load, Reads;
    NamelessParts(u, q, big);
    var ms := VIRT_DRIVE_MEMBERS;
    assert Offset(ms, 1) == 24 && Offset(ms, 2) == 26 && Offset(ms, 3) == 28 && Offset(ms, 4) == 32;
    PartOfPart(u, 0, 28, 0, 24);
    PartOfPart(q, 0, 28, 0, 24);
    PartOfPart(u, 0, 28, 24, 2);
    PartOfPart(q, 0, 28, 24, 2);
    PartOfPart(u, 0, 28, 26, 2);
    PartOfPart(q, 0, 28, 26, 2);
    PartOfPart(u, 26, 38, 0, 2);
    PartOfPart(p, 26, 38, 0, 2);
    PartOfPart(u, 26, 38, 2, 4);
    PartOfPart(p, 26, 38, 2, 4);
    PartOfPart(u, 26, 38, 6, 32);
    PartOfPart(p, 26, 38, 6, 32);
  }

  lemma NamelessParts(u: seq<byte>, q: seq<byte>, big: bool)
    requires |u| == |q| == 64 && Reads(NAMELESS_MEMBERS, u, q, big)
    ensures Part(q, 0, 28) == Part(u, 0, 28) && Part(q, 32, 32) == Part(u, 32, 32)
    ensures Load(Part(q, 28, 4), big) == Load(Part(u, 28, 4), !big)
  {
    hide Load;
    var ms := NAMELESS_MEMBERS;
    assert Offset(ms, 0) == 0 && Offset(ms, 1) == 28 && Offset(ms, 2) == 32;
    assert ReadsAt(ms, 0, u, q, big) && ReadsAt(ms, 1, u, q, big) && ReadsAt(ms, 2, u, q, big);
    assert WordAt(ms, 1, 0, q, big) == WordAt(ms, 1, 0, u, !big);
  }

  lemma EntryIsRead(l: Layout, p: seq<byte>, big: bool)
    requires !l.Config? && |p| == Total(EntryMembers(l))
    ensures |p| == if l.Spares? then 32 else 64
    ensures EntryReads(l, p, CvtFields(p, RowOf(l)), big)
  {
    hide Fields, RunsOf, Offset, CvtFields, Reads;
    match l
    case PhysDrives =>
      PhysDriveFields();
      StructureReads(PHYS_DRIVE_MEMBERS, RunsOf(PHYS_DRIVE_MEMBERS, |PHYS_DRIVE_MEMBERS|), p, big);
    case VirtDrives =>
      VirtDriveFields();
      VirtDriveReads(p, big);
    case Spares =>
      SpareFields();
      StructureReads(SPARE_MEMBERS, RunsOf(SPARE_MEMBERS, |SPARE_MEMBERS|), p, big);
  }

  // ----------------------------------------------- the elements of a VD record

  lemma {:induction false} FieldIsSwapped(s: seq<byte>, fs: seq<Field>, k: nat)
    requires AllUsable(fs, |s|) && Disjoint(fs) && k < |fs| && Exact(fs[k])
    ensures Usable(fs[k], |s|)
    ensures Part(CvtFields(s, fs), fs[k].off, fs[k].size) == Reverse(Part(s, fs[k].off, fs[k].size))
    decreases fs
  {
    hide CvtField;
    DisjointTail(fs);
    var u := CvtField(s, fs[0]);
    assert Usable(fs[k], |s|) by { assert fs[k] in fs; }
    if k == 0 {
      FieldSwapped(s, fs[0]);
      CvtFieldsElsewhere(u, fs[1..], fs[0].off, fs[0].size);
    } else {
      assert Apart(fs[0], fs[k]);
      CvtFieldElsewhere(s, fs[0], fs[k].off, fs[k].size);
      FieldIsSwapped(u, fs[1..], k - 1);
    }
  }

  lemma FieldSwapped(s: seq<byte>, f: Field)
    requires Usable(f, |s|) && Exact(f)
    ensures Part(CvtField(s, f), f.off, f.size) == Reverse(Part(s, f.off, f.size))
  {
    PartOfSplice(s, f.off, Reverse(Part(s, f.off, f.size)));
  }

  // ids[i] and off[i]
  predicate ElementReads(s: seq<byte>, t: seq<byte>, cap: nat, i: nat, big: bool)
    requires i < cap && 512 + 4 * cap + 8 * (i + 1) <= |s| == |t|
  {
    var id, off := 512 + 4 * i, 512 + 4 * cap + 8 * i;
    && Load(Part(t, id, 4), big) == Load(Part(s, id, 4), !big)
    && Load(Part(t, off, 8), big) == Load(Part(s, off, 8), !big)
  }

  predicate ElementsRead(s: seq<byte>, t: seq<byte>, cap: nat, n: nat, big: bool)
    requires n <= cap && 512 + 4 * cap + 8 * n <= |s| == |t|
  {
    && (forall i :: 0 <= i < n ==> ElementReads(s, t, cap, i, big))
    && forall p :: 512 + 4 * n <= p < 512 + 4 * cap ==> t[p] == s[p]
  }

  lemma FieldIsRead(s: seq<byte>, fs: seq<Field>, k: nat, f: Field, big: bool)
    requires AllUsable(fs, |s|) && Disjoint(fs) && k < |fs| && fs[k] == f && Exact(f)
    ensures f.off + f.size <= |s|
    ensures Load(Part(CvtFields(s, fs), f.off, f.size), big) == Load(Part(s, f.off, f.size), !big)
  {
    hide CvtFields, Load;
    FieldIsSwapped(s, fs, k);
    ReverseReads(Part(s, f.off, f.size), big);
  }

  lemma ElementIsRead(s: seq<byte>, cap: nat, n: nat, i: nat, big: bool)
    requires i < n <= cap && 512 + 4 * cap + 8 * n <= |s|
    ensures AllUsable(Elements(cap, n), |s|)
    ensures ElementReads(s, CvtFields(s, Elements(cap, n)), cap, i, big)
  {
    hide CvtFields, Load, Disjoint, AllUsable, Elements, Part;
    EntriesUsable(Config(cap), n, |s|);
    assert Entries(Config(cap), n) == Elements(cap, n);
    ElementsDisjoint(cap, n);
    var fs := Elements(cap, n);
    ElementAt(cap, n, i);
    FieldIsRead(s, fs, 2 * i, IdField(i), big);
    FieldIsRead(s, fs, 2 * i + 1, OffField(cap, i), big);
    assert IdField(i).off == 512 + 4 * i && OffField(cap, i).off == 512 + 4 * cap + 8 * i;
  }

  lemma ElementAt(cap: nat, n: nat, i: nat)
    requires i < n
    ensures 2 * i + 1 < |Elements(cap, n)|
    ensures Elements(cap, n)[2 * i] == IdField(i) && Elements(cap, n)[2 * i + 1] == OffField(cap, i)
  {
  }

  lemma ElementPlace(cap: nat, n: nat, f: Field)
    requires f in Elements(cap, n)
    ensures 512 <= f.off
    ensures f.off + f.size <= 512 + 4 * n || (512 + 4 * cap <= f.off && f.off + f.size <= 512 + 4 * cap + 8 * n)
  {
    var k :| 0 <= k < 2 * n && Elements(cap, n)[k] == f;
    assert k == 2 * (k / 2) || k == 2 * (k / 2) + 1;
    assert f == IdField(k / 2) || f == OffField(cap, k / 2);
  }

  lemma ElementsElsewhere(s: seq<byte>, cap: nat, n: nat, p: nat)
    requires n <= cap && 512 + 4 * cap + 8 * n <= |s| && p < |s|
    requires p < 512 || 512 + 4 * n <= p < 512 + 4 * cap || 512 + 4 * cap + 8 * n <= p
    ensures AllUsable(Elements(cap, n), |s|) && CvtFields(s, Elements(cap, n))[p] == s[p]
  {
    hide CvtFields, Elements;
    EntriesUsable(Config(cap), n, |s|);
    assert Entries(Config(cap), n) == Elements(cap, n);
    var fs := Elements(cap, n);
    forall f | f in fs ensures f.off + f.size <= p || p + 1 <= f.off {
      ElementPlace(cap, n, f);
    }
    CvtFieldsElsewhere(s, fs, p, 1);
    var t := CvtFields(s, fs);
    assert Part(t, p, 1)[0] == t[p] && Part(s, p, 1)[0] == s[p];
  }

  lemma ElementsAreRead(s: seq<byte>, cap: nat, n: nat, big: bool)
    requires n <= cap && 512 + 4 * cap + 8 * n <= |s|
    ensures AllUsable(Elements(cap, n), |s|) && ElementsRead(s, CvtFields(s, Elements(cap, n)), cap, n, big)
  {
    hide CvtFields, ElementReads;
    EntriesUsable(Config(cap), n, |s|);
    var t := CvtFields(s, Elements(cap, n));
    forall i | 0 <= i < n ensures ElementReads(s, t, cap, i, big) {
      ElementIsRead(s, cap, n, i, big);
    }
    forall p | 512 + 4 * n <= p < 512 + 4 * cap ensures t[p] == s[p] {
      ElementsElsewhere(s, cap, n, p);
    }
  }

  // --------------------------------------------------------- a whole table

  // The group whose first number counts the entries: num_drives, num_spares, primary_element_count.
  function CountGroup(l: Layout): nat {
    match l
    case PhysDrives => 1
    case VirtDrives => 1
    case Spares => 2
    case Config(_) => 4
  }

  lemma CountIsMember(l: Layout)
    ensures var ms, k := FixedMembers(l), CountGroup(l);
      && k < |ms| && ms[k].Words? && ms[k].width == 2 && ms[k].count > 0 && Offset(ms, k) == CountAt(l)
      && Offset(ms, k) + Size(ms[k]) <= FixedSize(l)
  {
    var ms := FixedMembers(l);
    match l
    case PhysDrives => assert Offset(ms, 1) == 8;
    case VirtDrives => assert Offset(ms, 1) == 8;
    case Spares => assert Offset(ms, 1) == 12 && Offset(ms, 2) == 20;
    case Config(_) => assert Offset(ms, 1) == 8 && Offset(ms, 2) == 32 && Offset(ms, 3) == 40 && Offset(ms, 4) == 64;
  }

  // The entries that the table counts itself, in whichever byte order it is.
  function Declared(l: Layout, s: seq<byte>, cpu: bool, big: bool): nat
    requires FixedSize(l) <= |s|
  {
    CountIsMember(l);
    WordAt(FixedMembers(l), CountGroup(l), 0, s, if cpu then big else !big)
  }

  lemma CountIsDeclared(l: Layout, s: seq<byte>, cpu: bool, big: bool)
    requires FixedSize(l) <= |s|
    ensures Count(l, s, cpu, big) == Declared(l, s, cpu, big)
  {
    hide CvtFixed, Load, Offset, FixedMembers, Size;
    CountIsMember(l);
    if !cpu {
      FixedReads(l, s, big);
      var ms, k := FixedMembers(l), CountGroup(l);
      assert ReadsAt(ms, k, s, CvtFixed(l, s), big);
      assert WordAt(ms, k, 0, CvtFixed(l, s), big) == WordAt(ms, k, 0, s, !big);
    }
  }

  // n entries behind the fixed part are translated, and nothing behind them is touched.
  predicate BehindReads(l: Layout, n: nat, s: seq<byte>, t: seq<byte>, big: bool)
    requires |s| == |t|
  {
    match l
    case Config(cap) =>
      512 + 4 * cap + 8 * n <= |s| && (n <= cap ==> ElementsRead(s, t, cap, n, big))
      && forall p :: 512 + 4 * cap + 8 * n <= p < |s| ==> t[p] == s[p]
    case _ =>
      var base, size := Total(FixedMembers(l)), Total(EntryMembers(l));
      && EntryAt(base, size, n) <= |s|
      && (forall i :: 0 <= i < n ==> EntryReadsAt(l, s, t, EntryAt(base, size, i), size, big))
      && forall p :: EntryAt(base, size, n) <= p < |s| ==> t[p] == s[p]
  }

  predicate TableReads(l: Layout, s: seq<byte>, t: seq<byte>, cpu: bool, big: bool) {
    && FixedSize(l) <= |s| == |t| && Reads(FixedMembers(l), s, t, big)
    && BehindReads(l, Declared(l, s, cpu, big), s, t, big)
  }

  predicate EntryReadsAt(l: Layout, s: seq<byte>, t: seq<byte>, at: nat, size: nat, big: bool)
    requires !l.Config?
  {
    at + size <= |s| == |t| && EntryReads(l, Part(s, at, size), Part(t, at, size), big)
  }

  lemma ReadsBelow(ms: seq<Group>, s: seq<byte>, u: seq<byte>, t: seq<byte>, big: bool)
    requires Reads(ms, s, u, big) && SameBelow(u, t, Total(ms))
    ensures Reads(ms, s, t, big)
  {
    hide ReadsAt, SameBelow;
    forall k | 0 <= k < |ms| ensures ReadsAt(ms, k, s, t, big) {
      OffsetsGrow(ms, k, |ms|);
      StillReads(ms, k, s, u, t, Total(ms), big);
    }
  }

  // The entries lie behind the fixed part.
  lemma EntriesBehind(l: Layout, n: nat, s: seq<byte>)
    requires FixedSize(l) <= |s| && Extent(l, n) <= |s|
    ensures SameBelow(s, CvtEntries(l, n, s), FixedSize(l))
  {
    hide CvtFields, Entries;
    EntriesUsable(l, n, |s|);
    EntriesPlaced(l, n);
    var t := CvtEntries(l, n, s);
    CvtFieldsElsewhere(s, Entries(l, n), 0, FixedSize(l));
    forall p | 0 <= p < FixedSize(l) ensures t[p] == s[p] {
      assert Part(t, 0, FixedSize(l))[p] == t[p] && Part(s, 0, FixedSize(l))[p] == s[p];
    }
  }

  lemma EntriesAreRead(l: Layout, n: nat, s: seq<byte>, h: seq<byte>, big: bool)
    requires !l.Config? && FixedSize(l) <= |s| == |h| && Extent(l, n) <= |s|
    requires forall p :: FixedSize(l) <= p < |s| ==> h[p] == s[p]
    ensures BehindReads(l, n, s, CvtEntries(l, n, h), big)
  {
    hide CvtFields, Rows, Offset, AllUsable, EntryReadsAt, EntryConverted, EntryAt, Entries, FixedMembers, EntryMembers;
    var base, size := FixedSize(l), if l.Spares? then 32 else 64;
    EntryTotal(l);
    FixedTotal(l);
    ExtentIs(l, n);
    EntriesUsable(l, n, |s|);
    RowsConvert(h, RowOf(l), base, size, n);
    var t := CvtEntries(l, n, h);
    forall i | 0 <= i < n ensures EntryReadsAt(l, s, t, EntryAt(base, size, i), size, big) {
      EntriesApart(base, size, i, n);
      ConvertedIsRead(l, s, h, t, EntryAt(base, size, i), size, big);
    }
  }

  lemma ConvertedIsRead(l: Layout, s: seq<byte>, h: seq<byte>, t: seq<byte>, at: nat, size: nat, big: bool)
    requires !l.Config? && |s| == |h| == |t| && size == (if l.Spares? then 32 else 64)
    requires FixedSize(l) <= at && EntryConverted(h, t, RowOf(l), at, size)
    requires forall p :: FixedSize(l) <= p < |s| ==> h[p] == s[p]
    ensures EntryReadsAt(l, s, t, at, size, big)
  {
    hide CvtFields, Offset, AllUsable, EntryReads;
    EntryTotal(l);
    assert Part(h, at, size) == Part(s, at, size);
    EntryIsRead(l, Part(s, at, size), big);
  }

  lemma EntryTotal(l: Layout)
    requires !l.Config?
    ensures Total(EntryMembers(l)) == if l.Spares? then 32 else 64
  {
    hide Fields, RunsOf, Offset;
    match l
    case PhysDrives => PhysDriveFields();
    case VirtDrives => VirtDriveFields();
    case Spares => SpareFields();
  }

  lemma ExtentIs(l: Layout, n: nat)
    requires !l.Config?
    ensures var size := if l.Spares? then 32 else 64;
      Extent(l, n) == EntryAt(FixedSize(l), size, n) && Entries(l, n) == Rows(RowOf(l), FixedSize(l), size, n)
  {
    hide Rows;
  }

  lemma RecordIsRead(cap: nat, n: nat, s: seq<byte>, h: seq<byte>, big: bool)
    requires 512 + 4 * cap + 8 * n <= |s| == |h|
    requires forall p :: 512 <= p < |s| ==> h[p] == s[p]
    ensures BehindReads(Config(cap), n, s, CvtEntries(Config(cap), n, h), big)
  {
    hide CvtFields, ElementReads;
    EntriesUsable(Config(cap), n, |s|);
    var t := CvtEntries(Config(cap), n, h);
    forall p | 512 + 4 * cap + 8 * n <= p < |s| ensures t[p] == s[p] {
      BehindElements(h, cap, n, p);
    }
    if n <= cap {
      ElementsAreRead(h, cap, n, big);
      forall i | 0 <= i < n ensures ElementReads(s, t, cap, i, big) {
        SameElement(s, h, t, cap, n, i, big);
      }
    }
  }

  lemma SameElement(s: seq<byte>, h: seq<byte>, t: seq<byte>, cap: nat, n: nat, i: nat, big: bool)
    requires i < n <= cap && 512 + 4 * cap + 8 * n <= |s| == |h| == |t|
    requires forall p :: 512 <= p < |s| ==> h[p] == s[p]
    requires ElementReads(h, t, cap, i, big)
    ensures ElementReads(s, t, cap, i, big)
  {
    hide Load;
    assert Part(h, 512 + 4 * i, 4) == Part(s, 512 + 4 * i, 4);
    assert Part(h, 512 + 4 * cap + 8 * i, 8) == Part(s, 512 + 4 * cap + 8 * i, 8);
  }

  lemma BehindElements(s: seq<byte>, cap: nat, n: nat, p: nat)
    requires 512 + 4 * cap + 8 * n <= p < |s|
    ensures CvtEntries(Config(cap), n, s)[p] == s[p]
  {
    hide CvtFields, Elements;
    EntriesUsable(Config(cap), n, |s|);
    EntriesPlaced(Config(cap), n);
    CvtFieldsElsewhere(s, Elements(cap, n), p, 1);
    var t := CvtEntries(Config(cap), n, s);
    assert Part(t, p, 1)[0] == t[p] && Part(s, p, 1)[0] == s[p];
  }

  /** A table with counted entries: the fixed part, as many entries as the table declares, and
      nothing behind them.
   */
  lemma TableIsRead(l: Layout, s: seq<byte>, cpu: bool, big: bool)
    requires Fits(l, s, cpu, big)
    ensures TableReads(l, s, CvtTable(l, s, cpu, big), cpu, big)
  {
    hide CvtEntries, CvtFixed, Load, Reads, Offset, Declared, Entries, BehindReads, FixedMembers;
    var n, h := Count(l, s, cpu, big), CvtFixed(l, s);
    CountIsDeclared(l, s, cpu, big);
    FixedReads(l, s, big);
    FixedTotal(l);
    EntriesBehind(l, n, h);
    ReadsBelow(FixedMembers(l), s, h, CvtTable(l, s, cpu, big), big);
    if l.Config? {
      RecordIsRead(l.cap, n, s, h, big);
    } else {
      EntriesAreRead(l, n, s, h, big);
    }
  }

  // -------------------------------------------------------- the whole disk

  // A configuration record by its first four bytes.
  predicate RecordReads(s: seq<byte>, t: seq<byte>, cap: nat, cpu: bool, big: bool) {
    if |s| < 4 then t == s
    else if s[..4] == [0xEE, 0xEE, 0xEE, 0xEE] then TableReads(Config(cap), s, t, cpu, big)
    else if s[..4] == [0x55, 0x55, 0x55, 0x55] then TableReads(Spares, s, t, cpu, big)
    else t == s
  }

  lemma RecordIsConverted(rec: seq<byte>, cap: nat, cpu: bool, big: bool)
    requires RecordFits(rec, cap, cpu, big)
    ensures RecordReads(rec, CvtRecord(rec, cap, cpu, big), cap, cpu, big)
  {
    hide KindOf, TableReads, CvtTable, Fits;
    var k := KindOf(rec, !cpu, big);
    KindIsOrderFree(rec, !cpu, big);
    KindByBytes(rec);
    if !k.Other? {
      TableIsRead(LayoutOf(k, cap), rec, cpu, big);
    }
  }

  lemma KindByBytes(rec: seq<byte>)
    requires |rec| >= 4
    ensures KindOf(rec, false, false)
         == if rec[..4] == [0xEE, 0xEE, 0xEE, 0xEE] then Vd
            else if rec[..4] == [0x55, 0x55, 0x55, 0x55] then Spare else Other
  {
    hide KindOfSignature;
    KindOfBytes(Part(rec, 0, 4));
    assert Part(rec, 0, 4) == rec[..4];
  }

  predicate EachReads(recs: seq<seq<byte>>, each: seq<seq<byte>>, cap: nat, cpu: bool, big: bool) {
    |recs| == |each| && forall i :: 0 <= i < |recs| ==> RecordReads(recs[i], each[i], cap, cpu, big)
  }

  // The records of an area, and what follows them.
  predicate AreaReads(s: seq<byte>, t: seq<byte>, sh: Shape, cpu: bool, big: bool) {
    && sh.count * sh.size <= |s| == |t|
    && EachReads(RecordsOf(s, sh.size, sh.count), RecordsOf(t, sh.size, sh.count), sh.cap, cpu, big)
    && t[sh.count * sh.size..] == s[sh.count * sh.size..]
  }

  lemma AreaIsRead(s: seq<byte>, sh: Shape, cpu: bool, big: bool)
    requires AreaFits(s, sh, cpu, big)
    ensures AreaReads(s, CvtArea(s, sh, cpu, big), sh, cpu, big)
  {
    hide RecordFits, CvtRecord, RecordReads, RecordsOf;
    var recs := RecordsOf(s, sh.size, sh.count);
    var each := CvtEach(recs, sh.cap, cpu, big);
    EachSized(recs, sh.size, sh.cap, cpu, big);
    RecordsOfAssembled(each, s[sh.count * sh.size..], sh.size);
    forall i | 0 <= i < sh.count ensures RecordReads(recs[i], each[i], sh.cap, cpu, big) {
      RecordIsConverted(recs[i], sh.cap, cpu, big);
    }
  }

  // How the primary header, on the host, divides the configuration area: records of
  // vd_config_record_len blocks, as many as config_record_len has room for, and room for
  // max_primary_elements ids, or max_phys_drives when that has no value; the signature of a
  // header in the other byte order swaps it.
  lemma ShapeIsDeclared(p: seq<byte>, big: bool)
    requires |p| == HEADER_SIZE && Load(Part(p, 134, 2), big) != 0
    ensures Total(HEADER_MEMBERS) == |p| && Offset(HEADER_MEMBERS, 8) == 128 && Offset(HEADER_MEMBERS, 10) == 192
    ensures var ms, sh := HEADER_MEMBERS, ShapeOf(p, big);
      var len, most := WordAt(ms, 8, 3, p, big), WordAt(ms, 8, 4, p, big);
      var room := if most == 0xFFFF then WordAt(ms, 8, 0, p, big) else most;
      && len != 0 && sh.size == 512 * len && sh.count == WordAt(ms, 10, 7, p, big) / len
      && sh.cap == (if WordAt(ms, 0, 0, p, big) == 0x11DE_11DE then Le32ToCpu(room) else room)
  {
    hide Load;
    HeaderFields();
    HeaderOffsets();
  }

  lemma HeaderOffsets()
    ensures Offset(HEADER_MEMBERS, 8) == 128 && Offset(HEADER_MEMBERS, 10) == 192
  {
    var ms := HEADER_MEMBERS;
    assert Offset(ms, 4) == 96 && Offset(ms, 8) == 128;
  }

  // The tables of an image after their conversion.
  predicate ImageReads(img: Image, t: Image, big: bool)
    requires |img.primary| == HEADER_SIZE && Load(Part(CpuPrimary(img), 134, 2), big) != 0
  {
    && t.inCpu == !img.inCpu
    && Reads(HEADER_MEMBERS, img.anchor, t.anchor, big) && Reads(HEADER_MEMBERS, img.primary, t.primary, big)
    && t.secondary.Some? == img.secondary.Some? && t.adapter.Some? == img.adapter.Some?
    && (t.secondary.Some? ==> Reads(HEADER_MEMBERS, img.secondary.value, t.secondary.value, big))
    && (t.adapter.Some? ==> Reads(ADAPTER_MEMBERS, img.adapter.value, t.adapter.value, big)
                            && SameFrom(img.adapter.value, t.adapter.value, 40))
    && Reads(DISK_DATA_MEMBERS, img.diskData, t.diskData, big) && SameFrom(img.diskData, t.diskData, 36)
    && TableReads(PhysDrives, img.physDrives, t.physDrives, img.inCpu, big)
    && TableReads(VirtDrives, img.virtDrives, t.virtDrives, img.inCpu, big)
    && AreaReads(img.config, t.config, ShapeOf(CpuPrimary(img), big), img.inCpu, big)
  }

  predicate SameFrom(s: seq<byte>, t: seq<byte>, at: nat) {
    |s| == |t| && forall p :: at <= p < |s| ==> t[p] == s[p]
  }

  /** After ddf1_cvt_all every number that the structures declare reads on the host as it read
      in the byte order of the disk, or the other way round; every character stays; and the
      number of each virtual drive is lost.
   */
  lemma ConvertedReads(img: Image, big: bool)
    requires WellSized(img, big)
    ensures ImageReads(img, CvtAll(img, true, big), big)
  {
    hide CvtHeader, CvtAdapter, CvtDiskData, CvtTable, CvtArea, Fits, ShapeOf, AreaFits, Load, Reads, TableReads,
         AreaReads;
    HeaderReads(img.anchor, big);
    HeaderReads(img.primary, big);
    if img.secondary.Some? {
      HeaderReads(img.secondary.value, big);
    }
    if img.adapter.Some? {
      AdapterReads(img.adapter.value, big);
    }
    DiskDataReads(img.diskData, big);
    TableIsRead(PhysDrives, img.physDrives, img.inCpu, big);
    TableIsRead(VirtDrives, img.virtDrives, img.inCpu, big);
    AreaIsRead(img.config, ShapeOf(CpuPrimary(img), big), img.inCpu, big);
  }
}
