/** Endianness conversion of all DDF1 metadata, lib/format/ddf/ddf1_cvt.c. */
module Ddf1Cvt {
  import opened Bits
  import Buffers
  import ByteOrder
  import opened Ddf1Fields
  import opened Ddf1Tables

  // The entry count, as the host reads it from bytes in CPU format.
  function CountIn(l: Layout, s: seq<byte>, big: bool): nat
    requires FixedSize(l) <= |s|
  {
    FixedPlaced(l);
    ByteOrder.Load(Buffers.Part(s, CountAt(l), 2), big)
  }

  function CvtFixed(l: Layout, s: seq<byte>): (r: seq<byte>)
    requires FixedSize(l) <= |s|
    ensures |r| == |s|
  {
    FixedUsable(l, |s|);
    CvtFields(s, FixedPart(l))
  }

  // The count is read before the conversion of the fixed part or after it.
  function Count(l: Layout, s: seq<byte>, cpu: bool, big: bool): nat
    requires FixedSize(l) <= |s|
  {
    CountIn(l, if cpu then s else CvtFixed(l, s), big)
  }

  predicate Fits(l: Layout, s: seq<byte>, cpu: bool, big: bool) {
    FixedSize(l) <= |s| && Extent(l, Count(l, s, cpu, big)) <= |s|
  }

  function CvtTable(l: Layout, s: seq<byte>, cpu: bool, big: bool): (r: seq<byte>)
    requires Fits(l, s, cpu, big)
    ensures |r| == |s|
  {
    CvtEntries(l, Count(l, s, cpu, big), CvtFixed(l, s))
  }

  function CvtEntries(l: Layout, n: nat, s: seq<byte>): (r: seq<byte>)
    requires Extent(l, n) <= |s|
    ensures |r| == |s|
  {
    EntriesUsable(l, n, |s|);
    CvtFields(s, Entries(l, n))
  }

  lemma FixedUsable(l: Layout, len: nat)
    requires FixedSize(l) <= len
    ensures AllUsable(FixedPart(l), len)
  {
    FixedPlaced(l);
    forall f | f in FixedPart(l) ensures Usable(f, len) {
      assert Usable(f, FixedSize(l));
    }
  }

  lemma EntriesUsable(l: Layout, n: nat, len: nat)
    requires Extent(l, n) <= len
    ensures AllUsable(Entries(l, n), len)
  {
    EntriesPlaced(l, n);
    forall f | f in Entries(l, n) ensures Usable(f, len) {
      assert Usable(f, Extent(l, n));
    }
  }

  lemma NoNarrow(fs: seq<Field>)
    requires forall f :: f in fs ==> Exact(f)
    ensures NarrowOnly(fs) == []
  {
  }

  lemma FixedTwice(l: Layout, s: seq<byte>)
    requires FixedSize(l) <= |s|
    ensures CvtFixed(l, CvtFixed(l, s)) == s
  {
    FixedPlaced(l);
    FixedUsable(l, |s|);
    NoNarrow(FixedPart(l));
    CvtFieldsTwice(s, FixedPart(l));
  }

  lemma FixedPastEntries(l: Layout, n: nat, s: seq<byte>)
    requires FixedSize(l) <= |s| && Extent(l, n) <= |s|
    ensures CvtEntries(l, n, CvtFixed(l, s)) == CvtFixed(l, CvtEntries(l, n, s))
  {
    FixedUsable(l, |s|);
    EntriesUsable(l, n, |s|);
    FixedPlaced(l);
    EntriesPlaced(l, n);
    forall f | f in FixedPart(l) ensures AllApart(f, Entries(l, n)) {
      assert Usable(f, FixedSize(l));
    }
    CvtFieldsMovePast(s, FixedPart(l), Entries(l, n));
  }

  lemma EntriesKeepCount(l: Layout, n: nat, s: seq<byte>, big: bool)
    requires FixedSize(l) <= |s| && Extent(l, n) <= |s|
    ensures CountIn(l, CvtEntries(l, n, s), big) == CountIn(l, s, big)
  {
    FixedPlaced(l);
    EntriesUsable(l, n, |s|);
    EntriesPlaced(l, n);
    CvtFieldsElsewhere(s, Entries(l, n), CountAt(l), 2);
  }

  /** The count is found in either direction, before the swap when the table
      is in CPU format and after it when it is not, so converting back visits
      the same entries.
   */
  lemma TableTwice(l: Layout, s: seq<byte>, cpu: bool, big: bool)
    requires Fits(l, s, cpu, big)
    ensures var t, n := CvtTable(l, s, cpu, big), Count(l, s, cpu, big);
      && Fits(l, t, !cpu, big)
      && Count(l, t, !cpu, big) == n
      && CvtTable(l, t, !cpu, big) == CvtEntries(l, n, CvtEntries(l, n, s))
  {
    var n := Count(l, s, cpu, big);
    var h := CvtFixed(l, s);
    var t := CvtEntries(l, n, h);
    FixedPastEntries(l, n, s);
    FixedTwice(l, CvtEntries(l, n, s));
    assert CvtFixed(l, t) == CvtEntries(l, n, s);
    EntriesKeepCount(l, n, s, big);
    EntriesKeepCount(l, n, h, big);
  }

  // Clear the narrow fields of the entries: the vd_num of each virtual drive.
  function Cleared(l: Layout, n: nat, s: seq<byte>): (r: seq<byte>)
    requires Extent(l, n) <= |s|
    ensures |r| == |s|
  {
    EntriesUsable(l, n, |s|);
    CvtFields(s, NarrowOnly(Entries(l, n)))
  }

  lemma EntriesTwice(l: Layout, n: nat, s: seq<byte>)
    requires Extent(l, n) <= |s|
    requires l.Config? ==> n <= l.cap
    ensures CvtEntries(l, n, CvtEntries(l, n, s)) == Cleared(l, n, s)
    ensures !l.VirtDrives? ==> Cleared(l, n, s) == s
  {
    EntriesUsable(l, n, |s|);
    EntriesPlaced(l, n);
    if l.Config? {
      ElementsDisjoint(l.cap, n);
    }
    CvtFieldsTwice(s, Entries(l, n));
    if !l.VirtDrives? {
      EntriesExact(l, n);
      NoNarrow(Entries(l, n));
    }
  }

  lemma EntriesExact(l: Layout, n: nat)
    requires !l.VirtDrives?
    ensures forall f :: f in Entries(l, n) ==> Exact(f)
  {
    match l
    case PhysDrives => RowsExact(PHYS_DRIVE, 64, 64, n);
    case Spares => RowsExact(SPARE, 32, 32, n);
    case Config(cap) =>
      forall f | f in Elements(cap, n) ensures Exact(f) {
        var k :| 0 <= k < 2 * n && Elements(cap, n)[k] == f;
        assert k == 2 * (k / 2) || k == 2 * (k / 2) + 1;
        assert f == IdField(k / 2) || f == OffField(cap, k / 2);
      }
  }

  // ------------------------------------------------------------ vd_num

  function VdNum(s: seq<byte>, i: nat): seq<byte>
    requires 64 + 64 * (i + 1) <= |s|
  {
    Buffers.Part(s, 64 + 64 * i + 24, 2)
  }

  lemma NarrowRow(base: nat)
    ensures NarrowOnly(Shift(VIRT_DRIVE, base)) == [Field(base + 24, 2, 4)]
  {
    var row := Shift(VIRT_DRIVE, base);
    assert row[1..] == [Field(base + 28, 4, 4)];
    assert NarrowOnly(row[1..]) == [];
  }

  lemma {:induction false} NarrowRows(n: nat)
    ensures |NarrowOnly(Rows(VIRT_DRIVE, 64, 64, n))| == n
    ensures forall i :: 0 <= i < n ==> NarrowOnly(Rows(VIRT_DRIVE, 64, 64, n))[i] == Field(64 + 64 * i + 24, 2, 4)
  {
    if n > 0 {
      hide NarrowOnly, Shift;
      NarrowRows(n - 1);
      NarrowOnlyConcat(Rows(VIRT_DRIVE, 64, 64, n - 1), Shift(VIRT_DRIVE, 64 + 64 * (n - 1)));
      NarrowRow(64 + 64 * (n - 1));
    }
  }

  lemma {:induction false} NarrowOnlyConcat(a: seq<Field>, b: seq<Field>)
    ensures NarrowOnly(a + b) == NarrowOnly(a) + NarrowOnly(b)
  {
    if a == [] {
      assert a + b == b;
    } else {
      assert (a + b)[1..] == a[1..] + b;
      NarrowOnlyConcat(a[1..], b);
    }
  }

  predicate VdNumsZero(s: seq<byte>, n: nat)
    requires 64 + 64 * n <= |s|
  {
    forall i :: 0 <= i < n ==> VdNum(s, i) == [0, 0]
  }

  lemma ClearedIsIdle(s: seq<byte>, n: nat)
    requires 64 + 64 * n <= |s|
    ensures Cleared(VirtDrives, n, s) == s <==> VdNumsZero(s, n)
  {
    hide NarrowOnly, CvtFields, Disjoint, Rows;
    EntriesUsable(VirtDrives, n, |s|);
    EntriesPlaced(VirtDrives, n);
    var narrow := NarrowOnly(Rows(VIRT_DRIVE, 64, 64, n));
    NarrowRows(n);
    NarrowOnlyDisjoint(Rows(VIRT_DRIVE, 64, 64, n));
    ClearingIsIdle(s, narrow);
    assert forall i :: 0 <= i < n ==> VdNum(s, i) == Buffers.Part(s, narrow[i].off, narrow[i].size);
    if VdNumsZero(s, n) {
      forall f | f in narrow ensures Buffers.Part(s, f.off, f.size) == [0, 0] {
        var i :| 0 <= i < n && narrow[i] == f;
        assert VdNum(s, i) == [0, 0];
      }
    } else {
      var i :| 0 <= i < n && VdNum(s, i) != [0, 0];
      assert narrow[i] in narrow;
    }
  }

  /** Converting the virtual drive table twice gives it back exactly when every
      vd_num was zero to begin with; the CVT32 on that 16 bit field loses it.
   */
  lemma VirtDrivesTwice(s: seq<byte>, cpu: bool, big: bool)
    requires Fits(VirtDrives, s, cpu, big)
    ensures var t, n := CvtTable(VirtDrives, s, cpu, big), Count(VirtDrives, s, cpu, big);
      && Fits(VirtDrives, t, !cpu, big)
      && (CvtTable(VirtDrives, t, !cpu, big) == s <==> VdNumsZero(s, n))
  {
    var n := Count(VirtDrives, s, cpu, big);
    TableTwice(VirtDrives, s, cpu, big);
    EntriesTwice(VirtDrives, n, s);
    ClearedIsIdle(s, n);
  }
}
