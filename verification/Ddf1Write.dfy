/** What ddf1_write of lib/format/ddf/ddf1.c leaves on the disk: the CRCs are updated, the
    tables are converted and written, and whoever reads them converts them back and checks
    the CRCs.
 */
module Ddf1Write {
  import opened Bits
  import Buffers
  import opened ByteOrder
  import opened Crc32
  import opened Ddf1Fields
  import opened Ddf1Tables
  import opened Ddf1Cvt
  import opened Ddf1Elements
  import Ddf1Records
  import opened Ddf1Image
  import opened Ddf1Crc

  // ------------------------------------- stamping does not disturb a conversion

  lemma StampKeepsCount(l: Layout, s: seq<byte>, size: nat, big: bool)
    requires FixedSize(l) <= |s| && 8 <= |s| && size <= |s|
    ensures Count(l, Stamp(s, size, big), true, big) == Count(l, s, true, big)
    ensures Fits(l, s, true, big) ==> Fits(l, Stamp(s, size, big), true, big)
  {
    hide Stamp, Load, FixedSize, Extent;
    FixedPlaced(l);
    StampKeeps(s, size, big, CountAt(l), 2);
  }

  lemma StampKeepsKind(rec: seq<byte>, foreign: bool, swap: bool, big: bool)
    requires |rec| >= 8
    ensures KindOf(StampRecord(rec, foreign, big), swap, big) == KindOf(rec, swap, big)
  {
    hide KindOfSignature, Stamp;
    if !KindOf(rec, foreign, big).Other? {
      StampKeeps(rec, |rec|, big, 0, 4);
    }
  }

  lemma RecordStays(rec: seq<byte>, cap: nat, foreign: bool, big: bool)
    requires |rec| >= 8 && RecordFits(rec, cap, true, big)
    ensures var r := StampRecord(rec, foreign, big);
      RecordFits(r, cap, true, big) && (RecordRestorable(r, cap, true, big) <==> RecordRestorable(rec, cap, true, big))
  {
    hide KindOf, Stamp, Fits, Count, Restorable;
    StampKeepsKind(rec, foreign, false, big);
    var k := KindOf(rec, false, big);
    if !k.Other? && !KindOf(rec, foreign, big).Other? {
      FitsFixed(LayoutOf(k, cap), rec, big);
      StampKeepsCount(LayoutOf(k, cap), rec, |rec|, big);
      if k.Vd? {
        RestorableStays(rec, cap, Count(Config(cap), rec, true, big), big);
      }
    }
  }

  lemma FitsFixed(l: Layout, s: seq<byte>, big: bool)
    requires Fits(l, s, true, big)
    ensures FixedSize(l) <= |s|
    ensures l.Config? ==> 512 + 4 * l.cap + 8 * Count(l, s, true, big) <= |s|
  {
  }

  lemma RestorableStays(rec: seq<byte>, cap: nat, n: nat, big: bool)
    requires 8 <= |rec| && 512 + 4 * cap + 8 * n <= |rec|
    ensures Restorable(Stamp(rec, |rec|, big), cap, n) <==> Restorable(rec, cap, n)
  {
    hide Stamp, SwapHalves, EndsIn;
    forall j: nat | j < n && EndsIn(cap, n, j)
      ensures OwnSwap(Stamp(rec, |rec|, big), 512 + 4 * cap + 8 * j) <==> OwnSwap(rec, 512 + 4 * cap + 8 * j)
    {
      StampKeeps(rec, |rec|, big, 512 + 4 * cap + 8 * j, 8);
    }
  }

  lemma AreaStays(cfg: seq<byte>, sh: Shape, foreign: bool, big: bool)
    requires 8 <= sh.size && AreaFits(cfg, sh, true, big)
    ensures var r := StampArea(cfg, sh, foreign, big);
      AreaFits(r, sh, true, big) && (AreaRestorable(r, sh, true, big) <==> AreaRestorable(cfg, sh, true, big))
  {
    hide RecordFits, RecordRestorable, StampRecord, StampArea, Ddf1Records.RecordsOf;
    StampedArea(cfg, sh, foreign, big);
    var recs := Ddf1Records.RecordsOf(cfg, sh.size, sh.count);
    forall i | 0 <= i < sh.count
      ensures var r := StampRecord(recs[i], foreign, big);
              RecordFits(r, sh.cap, true, big)
              && (RecordRestorable(r, sh.cap, true, big) <==> RecordRestorable(recs[i], sh.cap, true, big))
    {
      RecordStays(recs[i], sh.cap, foreign, big);
    }
  }

  lemma VdNumsStay(s: seq<byte>, n: nat, size: nat, big: bool)
    requires 64 + 64 * n <= |s| && size <= |s|
    ensures forall i :: 0 <= i < n ==> VdNum(Stamp(s, size, big), i) == VdNum(s, i)
  {
    hide Stamp;
    forall i | 0 <= i < n ensures VdNum(Stamp(s, size, big), i) == VdNum(s, i) {
      StampKeeps(s, size, big, 64 + 64 * i + 24, 2);
    }
  }

  // The tables are in CPU format, and long enough for both walks.
  predicate Writable(img: Image, big: bool) {
    img.inCpu && WellSized(img, big) && CrcSized(img, big)
  }

  lemma WritableFits(img: Image, big: bool)
    requires Writable(img, big)
    ensures 64 + 64 * Count(PhysDrives, img.physDrives, true, big) <= |img.physDrives|
    ensures 64 + 64 * Count(VirtDrives, img.virtDrives, true, big) <= |img.virtDrives|
    ensures Holds(img.physDrives, TableSize(img.primary, PHYS_DRIVE_LEN, big))
    ensures Holds(img.virtDrives, TableSize(img.primary, VIRT_DRIVE_LEN, big))
    ensures Load(Buffers.Part(img.primary, 134, 2), big) != 0
    ensures AreaFits(img.config, ShapeOf(img.primary, big), true, big)
    ensures 8 <= ShapeOf(img.primary, big).size
  {
    hide Load, AreaFits, TableSize, Holds;
  }

  /** Stamping keeps an image in shape, and reversible or not. */
  lemma UpdateStays(img: Image, foreign: bool, big: bool)
    requires Writable(img, big)
    ensures var u := UpdateAll(img, foreign, big);
      Writable(u, big) && (Reversible(u, big) <==> Reversible(img, big))
  {
    hide Stamp, Load, ShapeOf, StampArea, TableSize, AreaFits, AreaRestorable, Count, Fits;
    WritableFits(img, big);
    var p := img.primary;
    StampedPrimary(p, big);
    StampKeepsCount(PhysDrives, img.physDrives, TableSize(p, PHYS_DRIVE_LEN, big), big);
    StampKeepsCount(VirtDrives, img.virtDrives, TableSize(p, VIRT_DRIVE_LEN, big), big);
    VdNumsStay(img.virtDrives, Count(VirtDrives, img.virtDrives, true, big), TableSize(p, VIRT_DRIVE_LEN, big), big);
    AreaStays(img.config, ShapeOf(p, big), foreign, big);
    UpdateThenCheck(img, foreign, big);
  }

  // ------------------------------------------------------------ reading it back

  // The image that ddf1_write stamps, after it has been converted, written, read and
  // converted back.
  function ReadBack(img: Image, big: bool): Image
    requires Writable(img, big)
  {
    UpdateStays(img, true, big);
    var u := UpdateAll(img, true, big);
    CvtAllTwice(u, true, big);
    CvtAll(CvtAll(u, true, big), true, big)
  }

  lemma ReadBackIs(img: Image, big: bool)
    requires Writable(img, big)
    ensures ReadBack(img, big) == UpdateAll(img, true, big) <==> Reversible(img, big)
    ensures var u, b := UpdateAll(img, true, big), ReadBack(img, big);
      && Writable(u, big)
      && b == u.(virtDrives := b.virtDrives, config := b.config)
      && b.virtDrives == Cleared(VirtDrives, Count(VirtDrives, u.virtDrives, true, big), u.virtDrives)
      && (b.config == u.config <==> AreaRestorable(u.config, ShapeOf(u.primary, big), true, big))
  {
    hide CvtHeader, CvtAdapter, CvtDiskData, CvtTable, CvtArea, Count, Fits, ShapeOf, AreaFits, AreaRestorable,
         VdNumsZero;
    hide Load, UpdateAll, CrcSized, Cleared;
    UpdateStays(img, true, big);
    var u := UpdateAll(img, true, big);
    CvtAllTwice(u, true, big);
    HeaderTwice(u.anchor);
    HeaderTwice(u.primary);
    if u.secondary.Some? {
      HeaderTwice(u.secondary.value);
    }
    if u.adapter.Some? {
      AdapterTwice(u.adapter.value);
    }
    DiskDataTwice(u.diskData);
    PhysDrivesTwice(u.physDrives, true, big);
    TableTwice(VirtDrives, u.virtDrives, true, big);
    EntriesTwice(VirtDrives, Count(VirtDrives, u.virtDrives, true, big), u.virtDrives);
    AreaTwice(u.config, ShapeOf(u.primary, big), true, big);
  }

  /** When the image is reversible, whoever reads it back finds every CRC in order. */
  lemma ReversibleReadsBack(img: Image, big: bool)
    requires Writable(img, big) && Reversible(img, big)
    ensures CrcSized(ReadBack(img, big), big) && Mismatches(ReadBack(img, big), true, big) == []
  {
    hide UpdateAll, Reversible, Mismatches, ReadBack;
    ReadBackIs(img, big);
    UpdateThenCheck(img, true, big);
  }

  // Clearing a field of zeros, or one somewhere else, keeps a byte.
  lemma {:induction false} ClearedAt(s: seq<byte>, fs: seq<Field>, p: nat)
    requires AllUsable(fs, |s|) && (forall f :: f in fs ==> !Exact(f)) && p < |s|
    requires forall f :: f in fs && f.off <= p < f.off + 2 ==> s[p] == 0
    ensures CvtFields(s, fs)[p] == s[p]
    decreases fs
  {
    if fs != [] {
      var f := fs[0];
      assert Usable(f, |s|) && !Exact(f);
      assert Swapped(Buffers.Part(s, f.off, f.size), f.width) == [0, 0];
      assert CvtField(s, f)[p] == s[p];
      ClearedAt(CvtField(s, f), fs[1..], p);
    }
  }

  // All virtual drives but one have the number zero.
  predicate OthersZero(s: seq<byte>, n: nat, k: nat)
    requires 64 + 64 * n <= |s|
  {
    forall i :: 0 <= i < n && i != k ==> VdNum(s, i) == [0, 0]
  }

  lemma ClearedOutside(s: seq<byte>, n: nat, k: nat, p: nat)
    requires 64 + 64 * n <= |s| && k < n && OthersZero(s, n, k) && p < |s|
    requires !(88 + 64 * k <= p < 90 + 64 * k)
    ensures Cleared(VirtDrives, n, s)[p] == s[p]
  {
    hide NarrowOnly, CvtFields, Rows;
    EntriesUsable(VirtDrives, n, |s|);
    var narrow := NarrowOnly(Rows(VIRT_DRIVE, 64, 64, n));
    NarrowRows(n);
    forall f | f in narrow && f.off <= p < f.off + 2 ensures s[p] == 0 {
      var i :| 0 <= i < n && narrow[i] == f;
      assert VdNum(s, i)[p - f.off] == 0;
    }
    ClearedAt(s, narrow, p);
  }

  lemma CrcDiffers(s: seq<byte>, t: seq<byte>, size: nat, k: nat)
    requires 8 <= |s| == |t| && 8 <= k && k + 4 <= size <= |s| && s != t
    requires forall p :: 0 <= p < |s| && !(k <= p < k + 2) ==> t[p] == s[p]
    ensures TableCrc(s, size) != TableCrc(t, size)
  {
    hide BitSerialCrc;
    var a, b := Masked(s)[..size], Masked(t)[..size];
    var p :| 0 <= p < |s| && s[p] != t[p];
    assert a[p] == s[p] && b[p] == t[p];
    FourByteWindow(ALL_ONES, a, b, k);
  }

  lemma WordsDiffer(a: Word, b: Word)
    requires a != b
    ensures FromBits(a) != FromBits(b)
  {
    ToFromBits(a);
    ToFromBits(b);
  }

  lemma ClearedMismatch(s: seq<byte>, t: seq<byte>, size: nat, k: nat, big: bool)
    requires 8 <= |s| == |t| && 8 <= k && k + 4 <= size <= |s|
    requires forall p :: 0 <= p < |s| && !(k <= p < k + 2) ==> t[p] == s[p]
    requires Matches(s, size, big)
    ensures Matches(t, size, big) <==> s == t
  {
    hide TableCrc, Load;
    assert Buffers.Part(s, 4, 4) == Buffers.Part(t, 4, 4);
    if s != t {
      CrcDiffers(s, t, size, k);
      WordsDiffer(TableCrc(s, size), TableCrc(t, size));
    }
  }

  lemma StampedVdMatches(img: Image, big: bool)
    requires Writable(img, big)
    ensures var u := UpdateAll(img, true, big);
      var size := TableSize(u.primary, VIRT_DRIVE_LEN, big);
      size == TableSize(img.primary, VIRT_DRIVE_LEN, big)
      && Holds(u.virtDrives, size) && Matches(u.virtDrives, size, big)
  {
    hide Stamp, Load, TableSize, Matches, StampArea, ShapeOf;
    WritableFits(img, big);
    StampedPrimary(img.primary, big);
    StampMatches(img.virtDrives, TableSize(img.primary, VIRT_DRIVE_LEN, big), big);
  }

  // Where everything else checks, the virtual drives decide.
  lemma VdDecides(b: Image, u: Image, big: bool)
    requires CrcSized(u, big) && b == u.(virtDrives := b.virtDrives) && |b.virtDrives| == |u.virtDrives|
    requires Mismatches(u, true, big) == []
    ensures CrcSized(b, big)
    ensures Mismatches(b, true, big) == []
            <==> Matches(b.virtDrives, TableSize(b.primary, VIRT_DRIVE_LEN, big), big)
  {
    hide Matches, ReportRecords, Ddf1Records.RecordsOf, TableSize, ShapeOf, Load;
  }

  lemma VdCount(img: Image, big: bool)
    requires Writable(img, big)
    ensures var u := UpdateAll(img, true, big);
      && Count(VirtDrives, u.virtDrives, true, big) == Count(VirtDrives, img.virtDrives, true, big)
      && |u.virtDrives| == |img.virtDrives|
      && forall i :: 0 <= i < Count(VirtDrives, img.virtDrives, true, big) ==>
        VdNum(u.virtDrives, i) == VdNum(img.virtDrives, i)
  {
    hide Stamp, StampArea, Load, TableSize, ShapeOf, Count;
    WritableFits(img, big);
    var size := TableSize(img.primary, VIRT_DRIVE_LEN, big);
    StampKeepsCount(VirtDrives, img.virtDrives, size, big);
    VdNumsStay(img.virtDrives, Count(VirtDrives, img.virtDrives, true, big), size, big);
  }

  /** And when no virtual drive but one can have a number, only then: the number that the
      conversion loses lies inside the bytes that were stamped, and a CRC notices it.
   */
  lemma ReadsBackIff(img: Image, big: bool, k: nat)
    requires Writable(img, big) && AreaRestorable(img.config, ShapeOf(img.primary, big), true, big)
    requires k < Count(VirtDrives, img.virtDrives, true, big)
    requires OthersZero(img.virtDrives, Count(VirtDrives, img.virtDrives, true, big), k)
    requires 128 + 64 * k <= TableSize(img.primary, VIRT_DRIVE_LEN, big)
    ensures CrcSized(ReadBack(img, big), big)
    ensures Mismatches(ReadBack(img, big), true, big) == [] <==> VdNum(img.virtDrives, k) == [0, 0]
  {
    hide UpdateAll, Mismatches, ReadBack, Matches, Load, ShapeOf, AreaRestorable, Count, TableSize, AreaFits, Cleared;
    var n := Count(VirtDrives, img.virtDrives, true, big);
    var u, b := UpdateAll(img, true, big), ReadBack(img, big);
    WritableFits(img, big);
    VdCount(img, big);
    UpdateStays(img, true, big);
    UpdateThenCheck(img, true, big);
    ReadBackIs(img, big);
    StampedVdMatches(img, big);
    SameArea(img, big);
    forall p | 0 <= p < |u.virtDrives| && !(88 + 64 * k <= p < 90 + 64 * k) ensures b.virtDrives[p] == u.virtDrives[p] {
      ClearedOutside(u.virtDrives, n, k, p);
    }
    VdDecides(b, u, big);
    ClearedMismatch(u.virtDrives, b.virtDrives, TableSize(u.primary, VIRT_DRIVE_LEN, big), 88 + 64 * k, big);
    ClearedIsIdle(u.virtDrives, n);
  }

  lemma SameArea(img: Image, big: bool)
    requires Writable(img, big)
    ensures var u := UpdateAll(img, true, big);
      && u.primary == Stamp(img.primary, HEADER_SIZE, big)
      && Load(Buffers.Part(u.primary, 134, 2), big) != 0
      && AreaFits(u.config, ShapeOf(u.primary, big), true, big)
      && (AreaRestorable(u.config, ShapeOf(u.primary, big), true, big)
          <==> AreaRestorable(img.config, ShapeOf(img.primary, big), true, big))
  {
    hide Stamp, StampArea, Load, TableSize, ShapeOf, AreaFits, AreaRestorable;
    WritableFits(img, big);
    StampedPrimary(img.primary, big);
    AreaStays(img.config, ShapeOf(img.primary, big), true, big);
  }
}
