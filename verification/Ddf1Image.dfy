/** All DDF1 metadata of one disk: the walk over the configuration records of
    lib/format/ddf/ddf1_lib.c and ddf1_cvt_all of lib/format/ddf/ddf1_cvt.c as
    functions on the bytes of the tables.
 */
module Ddf1Image {
  import opened Bits
  import opened Buffers
  import opened ByteOrder
  import opened Ddf1Fields
  import opened Ddf1Tables
  import opened Ddf1Cvt
  import opened Ddf1Elements
  import opened Ddf1Records
  import opened Optional

  const DDF1_BLKSIZE := 512
  const DDF1_HEADER_BACKWARDS := 0x11DE_11DE
  const DDF1_VD_CONFIG_REC := 0xEEEE_EEEE
  const DDF1_SPARE_REC := 0x5555_5555

  // ----------------------------------------------------------- one record

  datatype Kind = Vd | Spare | Other

  function KindOfSignature(x: nat): Kind {
    if x == DDF1_VD_CONFIG_REC then Vd else if x == DDF1_SPARE_REC then Spare else Other
  }

  // The switch of ddf1_process_records; swap says whether the signature is converted first.
  function KindOf(rec: seq<byte>, swap: bool, big: bool): Kind
    requires |rec| >= 4
  {
    var x := Load(Part(rec, 0, 4), big);
    KindOfSignature(if swap then Le32ToCpu(x) else x)
  }

  lemma SameByteNumber(s: seq<byte>, b: byte)
    requires |s| == 4
    ensures Number(s) == b + b * B1 + b * B2 + b * B3 <==> s == [b, b, b, b]
  {
    Number4(s);
    Digits4(Number(s), s[0], s[1], s[2], s[3]);
    if Number(s) == b + b * B1 + b * B2 + b * B3 {
      Digits4(Number(s), b, b, b, b);
    }
  }

  lemma KindOfBytes(s: seq<byte>)
    requires |s| == 4
    ensures KindOfSignature(Number(s))
         == if s == [0xEE, 0xEE, 0xEE, 0xEE] then Vd else if s == [0x55, 0x55, 0x55, 0x55] then Spare else Other
  {
    SameByteNumber(s, 0xEE);
    SameByteNumber(s, 0x55);
  }

  lemma ReverseSame(s: seq<byte>, b: byte)
    requires |s| == 4
    ensures Reverse(s) == [b, b, b, b] <==> s == [b, b, b, b]
  {
    var r := Reverse(s);
    assert r[0] == s[3] && r[1] == s[2] && r[2] == s[1] && r[3] == s[0];
  }

  // The two signatures read the same in either byte order, so neither the
  // host, nor the swap flag, nor the state of the record matters to the switch.
  lemma KindIsOrderFree(rec: seq<byte>, swap: bool, big: bool)
    requires |rec| >= 4
    ensures KindOf(rec, swap, big) == KindOf(rec, false, false)
    ensures KindOf(Splice(rec, 0, Reverse(Part(rec, 0, 4))), swap, big) == KindOf(rec, false, false)
  {
    var s := Part(rec, 0, 4);
    assert Part(Splice(rec, 0, Reverse(s)), 0, 4) == Reverse(s);
    ReverseTwice(s);
    ReverseSame(s, 0xEE);
    ReverseSame(s, 0x55);
    KindOfBytes(s);
    KindOfBytes(Reverse(s));
    Swap32IsReverse(s);
    Swap32IsReverse(Reverse(s));
  }

  // The layout of a record of a known kind; cap is the room for ids in a VD record.
  function LayoutOf(k: Kind, cap: nat): Layout
    requires !k.Other?
  {
    if k.Vd? then Config(cap) else Spares
  }

  predicate RecordFits(rec: seq<byte>, cap: nat, cpu: bool, big: bool) {
    && |rec| >= 4
    && var k := KindOf(rec, !cpu, big);
       k.Other? || Fits(LayoutOf(k, cap), rec, cpu, big)
  }

  // ddf1_cvt_config_record and ddf1_cvt_spare_record behind the switch.
  function CvtRecord(rec: seq<byte>, cap: nat, cpu: bool, big: bool): (r: seq<byte>)
    requires RecordFits(rec, cap, cpu, big)
    ensures |r| == |rec|
  {
    var k := KindOf(rec, !cpu, big);
    if k.Other? then rec else CvtTable(LayoutOf(k, cap), rec, cpu, big)
  }

  predicate RecordRestorable(rec: seq<byte>, cap: nat, cpu: bool, big: bool)
    requires RecordFits(rec, cap, cpu, big)
  {
    KindOf(rec, !cpu, big).Vd? ==> Restorable(rec, cap, Count(Config(cap), rec, cpu, big))
  }

  lemma FirstFieldSwapped(s: seq<byte>, fs: seq<Field>)
    requires AllUsable(fs, |s|) && Disjoint(fs) && fs != [] && fs[0] == Field(0, 4, 4)
    ensures Part(CvtFields(s, fs), 0, 4) == Reverse(Part(s, 0, 4))
  {
    hide Splice;
    DisjointTail(fs);
    CvtFieldsElsewhere(CvtField(s, fs[0]), fs[1..], 0, 4);
  }

  lemma SignatureSwapped(l: Layout, s: seq<byte>, cpu: bool, big: bool)
    requires Fits(l, s, cpu, big)
    ensures Part(CvtTable(l, s, cpu, big), 0, 4) == Reverse(Part(s, 0, 4))
  {
    hide CvtFields, Count;
    var n := Count(l, s, cpu, big);
    FixedPlaced(l);
    FixedUsable(l, |s|);
    FirstFieldSwapped(s, FixedPart(l));
    EntriesPlaced(l, n);
    EntriesUsable(l, n, |s|);
    CvtFieldsElsewhere(CvtFixed(l, s), Entries(l, n), 0, 4);
  }

  // The kind is seen again when the record is converted back.
  lemma KindKept(rec: seq<byte>, cap: nat, cpu: bool, big: bool)
    requires RecordFits(rec, cap, cpu, big)
    ensures KindOf(CvtRecord(rec, cap, cpu, big), cpu, big) == KindOf(rec, !cpu, big)
  {
    hide CvtTable, KindOf, Fits;
    var k := KindOf(rec, !cpu, big);
    KindIsOrderFree(rec, !cpu, big);
    KindIsOrderFree(rec, cpu, big);
    if !k.Other? {
      var t := CvtTable(LayoutOf(k, cap), rec, cpu, big);
      SignatureSwapped(LayoutOf(k, cap), rec, cpu, big);
      var r := Splice(rec, 0, Reverse(Part(rec, 0, 4)));
      PartOfSplice(rec, 0, Reverse(Part(rec, 0, 4)));
      SameSignature(t, r, cpu, big);
    }
  }

  // The kind depends on the first word only.
  lemma SameSignature(a: seq<byte>, b: seq<byte>, swap: bool, big: bool)
    requires |a| >= 4 && |b| >= 4 && Part(a, 0, 4) == Part(b, 0, 4)
    ensures KindOf(a, swap, big) == KindOf(b, swap, big)
  {
  }

  /** A record converted to the other byte order and back is the record again
      exactly when it is restorable.
   */
  lemma RecordTwice(rec: seq<byte>, cap: nat, cpu: bool, big: bool)
    requires RecordFits(rec, cap, cpu, big)
    ensures var t := CvtRecord(rec, cap, cpu, big);
      && RecordFits(t, cap, !cpu, big)
      && (CvtRecord(t, cap, !cpu, big) == rec <==> RecordRestorable(rec, cap, cpu, big))
  {
    hide KindOf, CvtTable, CvtEntries, After, Restorable, Count;
    var k := KindOf(rec, !cpu, big);
    KindKept(rec, cap, cpu, big);
    if !k.Other? {
      var l := LayoutOf(k, cap);
      var n := Count(l, rec, cpu, big);
      TableTwice(l, rec, cpu, big);
      if k.Spare? || n <= cap {
        EntriesTwice(l, n, rec);
        if k.Vd? {
          FitsIsRestorable(rec, cap, n);
        }
      } else {
        EntriesAreRounds(rec, cap, n);
        EntriesAreRounds(After(rec, cap, n), cap, n);
        ElementsTwice(rec, cap, n);
      }
    }
  }

  lemma FitsIsRestorable(rec: seq<byte>, cap: nat, n: nat)
    requires n <= cap && 512 + 4 * cap + 8 * n <= |rec|
    ensures Restorable(rec, cap, n)
  {
  }

  lemma EntriesAreRounds(rec: seq<byte>, cap: nat, n: nat)
    requires 512 + 4 * cap + 8 * n <= |rec|
    ensures CvtEntries(Config(cap), n, rec) == After(rec, cap, n)
  {
    hide After, CvtFields;
    AfterIsEntries(rec, cap, n);
  }

  // --------------------------------------------------------- all records

  predicate RecordsFit(recs: seq<seq<byte>>, cap: nat, cpu: bool, big: bool) {
    forall i :: 0 <= i < |recs| ==> RecordFits(recs[i], cap, cpu, big)
  }

  function CvtEach(recs: seq<seq<byte>>, cap: nat, cpu: bool, big: bool): (r: seq<seq<byte>>)
    requires RecordsFit(recs, cap, cpu, big)
    ensures |r| == |recs|
    ensures forall i :: 0 <= i < |recs| ==> r[i] == CvtRecord(recs[i], cap, cpu, big)
  {
    seq(|recs|, i requires 0 <= i < |recs| => CvtRecord(recs[i], cap, cpu, big))
  }

  predicate EachRestorable(recs: seq<seq<byte>>, cap: nat, cpu: bool, big: bool)
    requires RecordsFit(recs, cap, cpu, big)
  {
    forall i :: 0 <= i < |recs| ==> RecordRestorable(recs[i], cap, cpu, big)
  }

  lemma EachTwice(recs: seq<seq<byte>>, cap: nat, cpu: bool, big: bool)
    requires RecordsFit(recs, cap, cpu, big)
    ensures var t := CvtEach(recs, cap, cpu, big);
      && RecordsFit(t, cap, !cpu, big)
      && (CvtEach(t, cap, !cpu, big) == recs <==> EachRestorable(recs, cap, cpu, big))
  {
    hide RecordFits, CvtRecord, RecordRestorable;
    var t := CvtEach(recs, cap, cpu, big);
    forall i | 0 <= i < |recs|
      ensures RecordFits(t[i], cap, !cpu, big)
      ensures CvtRecord(t[i], cap, !cpu, big) == recs[i] <==> RecordRestorable(recs[i], cap, cpu, big)
    {
      RecordTwice(recs[i], cap, cpu, big);
    }
    var u := CvtEach(t, cap, !cpu, big);
    if u == recs {
      assert forall i :: 0 <= i < |recs| ==> u[i] == CvtRecord(t[i], cap, !cpu, big);
    }
  }

  // How the configuration area is divided, and the room for ids in a VD record.
  datatype Shape = Shape(size: nat, count: nat, cap: nat)

  predicate AreaFits(cfg: seq<byte>, sh: Shape, cpu: bool, big: bool) {
    && sh.count * sh.size <= |cfg|
    && RecordsFit(RecordsOf(cfg, sh.size, sh.count), sh.cap, cpu, big)
  }

  function CvtArea(cfg: seq<byte>, sh: Shape, cpu: bool, big: bool): seq<byte>
    requires AreaFits(cfg, sh, cpu, big)
  {
    hide RecordFits;
    Assemble(CvtEach(RecordsOf(cfg, sh.size, sh.count), sh.cap, cpu, big), cfg[sh.count * sh.size..])
  }

  predicate AreaRestorable(cfg: seq<byte>, sh: Shape, cpu: bool, big: bool)
    requires AreaFits(cfg, sh, cpu, big)
  {
    EachRestorable(RecordsOf(cfg, sh.size, sh.count), sh.cap, cpu, big)
  }

  lemma EachSized(recs: seq<seq<byte>>, size: nat, cap: nat, cpu: bool, big: bool)
    requires RecordsFit(recs, cap, cpu, big) && Sized(recs, size)
    ensures Sized(CvtEach(recs, cap, cpu, big), size)
  {
    hide CvtRecord;
  }

  lemma AreaTwice(cfg: seq<byte>, sh: Shape, cpu: bool, big: bool)
    requires AreaFits(cfg, sh, cpu, big)
    ensures var t := CvtArea(cfg, sh, cpu, big);
      && |t| == |cfg|
      && AreaFits(t, sh, !cpu, big)
      && (CvtArea(t, sh, !cpu, big) == cfg <==> AreaRestorable(cfg, sh, cpu, big))
  {
    hide CvtEach, RecordsFit, EachRestorable, RecordsOf, Assemble, Sized;
    var recs := RecordsOf(cfg, sh.size, sh.count);
    var once := CvtEach(recs, sh.cap, cpu, big);
    var tail := cfg[sh.count * sh.size..];
    EachTwice(recs, sh.cap, cpu, big);
    EachSized(recs, sh.size, sh.cap, cpu, big);
    RecordsOfAssembled(once, tail, sh.size);
    EachSized(once, sh.size, sh.cap, !cpu, big);
    AssembledRecords(cfg, sh.size, sh.count);
    AssembleInjective(CvtEach(once, sh.cap, !cpu, big), recs, tail, sh.size);
  }

  // -------------------------------------------------------- the whole disk

  /** The tables in memory and the flag saying which byte order they are in. */
  datatype Image = Image(
    inCpu: bool,
    anchor: seq<byte>,
    primary: seq<byte>,
    secondary: Option<seq<byte>>,
    adapter: Option<seq<byte>>,
    diskData: seq<byte>,
    physDrives: seq<byte>,
    virtDrives: seq<byte>,
    config: seq<byte>)

  function CvtHeader(s: seq<byte>): (r: seq<byte>)
    requires |s| == HEADER_SIZE
    ensures |r| == |s|
  {
    HeaderPlaced();
    CvtFields(s, Fields(HEADER))
  }

  function CvtAdapter(s: seq<byte>): (r: seq<byte>)
    requires |s| >= 40
    ensures |r| == |s|
  {
    AdapterPlaced();
    BetweenUsable(Fields(ADAPTER), 0, 40, |s|);
    CvtFields(s, Fields(ADAPTER))
  }

  function CvtDiskData(s: seq<byte>): (r: seq<byte>)
    requires |s| >= 36
    ensures |r| == |s|
  {
    DiskDataPlaced();
    BetweenUsable(Fields(DISK_DATA), 0, 36, |s|);
    CvtFields(s, Fields(DISK_DATA))
  }

  lemma HeaderTwice(s: seq<byte>)
    requires |s| == HEADER_SIZE
    ensures CvtHeader(CvtHeader(s)) == s
  {
    HeaderPlaced();
    NoNarrow(Fields(HEADER));
    CvtFieldsTwice(s, Fields(HEADER));
  }

  lemma AdapterTwice(s: seq<byte>)
    requires |s| >= 40
    ensures CvtAdapter(CvtAdapter(s)) == s
  {
    AdapterPlaced();
    BetweenUsable(Fields(ADAPTER), 0, 40, |s|);
    NoNarrow(Fields(ADAPTER));
    CvtFieldsTwice(s, Fields(ADAPTER));
  }

  lemma DiskDataTwice(s: seq<byte>)
    requires |s| >= 36
    ensures CvtDiskData(CvtDiskData(s)) == s
  {
    DiskDataPlaced();
    BetweenUsable(Fields(DISK_DATA), 0, 36, |s|);
    NoNarrow(Fields(DISK_DATA));
    CvtFieldsTwice(s, Fields(DISK_DATA));
  }

  // The primary header as the record walk sees it: in CPU format, in both directions.
  function CpuPrimary(img: Image): (p: seq<byte>)
    requires |img.primary| == HEADER_SIZE
    ensures |p| == HEADER_SIZE
  {
    if img.inCpu then img.primary else CvtHeader(img.primary)
  }

  // ddf1_cr_off_maxpds_helper, and its use in ddf1_cvt_config_record.
  function IdCapacity(p: seq<byte>, big: bool): nat
    requires |p| == HEADER_SIZE
  {
    var x := if Load(Part(p, 136, 2), big) == 0xFFFF then Load(Part(p, 128, 2), big) else Load(Part(p, 136, 2), big);
    if Load(Part(p, 0, 4), big) == DDF1_HEADER_BACKWARDS then Le32ToCpu(x) else x
  }

  function Quotient(a: nat, b: nat): nat
    requires b != 0
  {
    a / b
  }

  // record_size, NUM_CONFIG_ENTRIES: vd_config_record_len and config_record_len
  function ShapeOf(p: seq<byte>, big: bool): Shape
    requires |p| == HEADER_SIZE && Load(Part(p, 134, 2), big) != 0
  {
    var len := Load(Part(p, 134, 2), big);
    Shape(len * DDF1_BLKSIZE, Quotient(Load(Part(p, 220, 4), big), len), IdCapacity(p, big))
  }

  // The buffers are as long as the counts in them say, and records are not empty.
  predicate WellSized(img: Image, big: bool) {
    && |img.anchor| == |img.primary| == HEADER_SIZE
    && (img.secondary.Some? ==> |img.secondary.value| == HEADER_SIZE)
    && (img.adapter.Some? ==> |img.adapter.value| >= 40)
    && |img.diskData| >= 36
    && Fits(PhysDrives, img.physDrives, img.inCpu, big)
    && Fits(VirtDrives, img.virtDrives, img.inCpu, big)
    && Load(Part(CpuPrimary(img), 134, 2), big) != 0
    && AreaFits(img.config, ShapeOf(CpuPrimary(img), big), img.inCpu, big)
  }

  // ddf1_cvt_all; foreign says that the disk's byte order is not the host's.
  function CvtAll(img: Image, foreign: bool, big: bool): Image
    requires foreign ==> WellSized(img, big)
  {
    if foreign then
      Image(
        !img.inCpu,
        CvtHeader(img.anchor),
        CvtHeader(img.primary),
        if img.secondary.Some? then Some(CvtHeader(img.secondary.value)) else None,
        if img.adapter.Some? then Some(CvtAdapter(img.adapter.value)) else None,
        CvtDiskData(img.diskData),
        CvtTable(PhysDrives, img.physDrives, img.inCpu, big),
        CvtTable(VirtDrives, img.virtDrives, img.inCpu, big),
        CvtArea(img.config, ShapeOf(CpuPrimary(img), big), img.inCpu, big))
    else img.(inCpu := !img.inCpu)
  }

  // No virtual drive has a number, and no VD record counts more elements than can be restored.
  predicate Reversible(img: Image, big: bool)
    requires WellSized(img, big)
  {
    && VdNumsZero(img.virtDrives, Count(VirtDrives, img.virtDrives, img.inCpu, big))
    && AreaRestorable(img.config, ShapeOf(CpuPrimary(img), big), img.inCpu, big)
  }

  /** Converting all metadata to the other byte order and back is the identity
      exactly when the image is reversible, or when there is nothing to convert.
   */
  lemma CvtAllTwice(img: Image, foreign: bool, big: bool)
    requires foreign ==> WellSized(img, big)
    ensures foreign ==> WellSized(CvtAll(img, foreign, big), big)
    ensures CvtAll(CvtAll(img, foreign, big), foreign, big) == img <==> (foreign ==> Reversible(img, big))
  {
    hide CvtHeader, CvtAdapter, CvtDiskData, CvtTable, CvtArea, Count, Fits, ShapeOf, AreaFits, AreaRestorable,
         VdNumsZero, Load;
    if foreign {
      HeaderTwice(img.anchor);
      HeaderTwice(img.primary);
      if img.secondary.Some? {
        HeaderTwice(img.secondary.value);
      }
      if img.adapter.Some? {
        AdapterTwice(img.adapter.value);
      }
      DiskDataTwice(img.diskData);
      PhysDrivesTwice(img.physDrives, img.inCpu, big);
      VirtDrivesTwice(img.virtDrives, img.inCpu, big);
      AreaTwice(img.config, ShapeOf(CpuPrimary(img), big), img.inCpu, big);
    }
  }

  lemma PhysDrivesTwice(s: seq<byte>, cpu: bool, big: bool)
    requires Fits(PhysDrives, s, cpu, big)
    ensures var t := CvtTable(PhysDrives, s, cpu, big);
      Fits(PhysDrives, t, !cpu, big) && CvtTable(PhysDrives, t, !cpu, big) == s
  {
    TableTwice(PhysDrives, s, cpu, big);
    EntriesTwice(PhysDrives, Count(PhysDrives, s, cpu, big), s);
  }
}
