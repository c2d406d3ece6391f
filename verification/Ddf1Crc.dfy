/** CRCs over all DDF1 tables and configuration records: the update walk and the
    check walk of lib/format/ddf/ddf1_crc.c as functions on the tables.
 */
module Ddf1Crc {
  import opened Bits
  import opened Buffers
  import opened ByteOrder
  import opened Crc32
  import opened Ddf1Tables
  import opened Ddf1Records
  import opened Ddf1Image
  import opened Optional

  const UNSET: seq<byte> := [0xFF, 0xFF, 0xFF, 0xFF]

  // The table while its CRC is computed: crc, the second word, is all ones.
  function Masked(s: seq<byte>): (r: seq<byte>)
    requires |s| >= 8
    ensures |r| == |s|
  {
    Splice(s, 4, UNSET)
  }

  // do_crc32 over the first size bytes of a table.
  function TableCrc(s: seq<byte>, size: nat): Word
    requires size <= |s| && |s| >= 8
  {
    BitSerialCrc(ALL_ONES, Masked(s)[..size])
  }

  function Stored(s: seq<byte>, big: bool): nat
    requires |s| >= 8
  {
    Load(Part(s, 4, 4), big)
  }

  // *c->crc = do_crc32(c)
  function Stamp(s: seq<byte>, size: nat, big: bool): (r: seq<byte>)
    requires size <= |s| && |s| >= 8
    ensures |r| == |s|
  {
    Splice(s, 4, Store(FromBits(TableCrc(s, size)), 4, big))
  }

  predicate Matches(s: seq<byte>, size: nat, big: bool)
    requires size <= |s| && |s| >= 8
  {
    Stored(s, big) == FromBits(TableCrc(s, size))
  }

  lemma LoadOfStore(w: Word, big: bool)
    ensures Load(Store(FromBits(w), 4, big), big) == FromBits(w)
  {
    NumberOfBytes(FromBits(w), 4);
    ReverseTwice(Bytes(FromBits(w), 4));
  }

  /** A stamped table matches: its CRC does not depend on the field that holds it. */
  lemma StampMatches(s: seq<byte>, size: nat, big: bool)
    requires size <= |s| && |s| >= 8
    ensures Matches(Stamp(s, size, big), size, big)
    ensures forall k :: 0 <= k < |s| && !(4 <= k < 8) ==> Stamp(s, size, big)[k] == s[k]
  {
    hide BitSerialCrc, Load, Store;
    var c := Store(FromBits(TableCrc(s, size)), 4, big);
    SpliceTwice(s, 4, c, UNSET);
    PartOfSplice(s, 4, c);
    LoadOfStore(TableCrc(s, size), big);
  }

  lemma StampKeeps(s: seq<byte>, size: nat, big: bool, off: nat, n: nat)
    requires size <= |s| && |s| >= 8 && off + n <= |s| && (off + n <= 4 || 8 <= off)
    ensures Part(Stamp(s, size, big), off, n) == Part(s, off, n)
  {
  }

  // ------------------------------------------------------ table sizes

  // A length field of the primary header, in bytes, as a 32 bit product.
  function TableSize(p: seq<byte>, off: nat, big: bool): nat
    requires off + 4 <= |p|
  {
    Load(Part(p, off, 4), big) * DDF1_BLKSIZE % B4
  }

  const ADAPTER_DATA_LEN := 196
  const PHYS_DRIVE_LEN := 204
  const VIRT_DRIVE_LEN := 212
  const DISK_DATA_LEN := 228

  predicate Holds(s: seq<byte>, size: nat) {
    8 <= |s| && size <= |s|
  }

  // The buffers are as long as the lengths in the primary header say.
  predicate CrcSized(img: Image, big: bool) {
    && |img.primary| == HEADER_SIZE
    && (img.secondary.Some? ==> |img.secondary.value| == HEADER_SIZE)
    && (img.adapter.Some? ==> Holds(img.adapter.value, TableSize(img.primary, ADAPTER_DATA_LEN, big)))
    && Holds(img.diskData, TableSize(img.primary, DISK_DATA_LEN, big))
    && Holds(img.physDrives, TableSize(img.primary, PHYS_DRIVE_LEN, big))
    && Holds(img.virtDrives, TableSize(img.primary, VIRT_DRIVE_LEN, big))
    && Load(Part(img.primary, 134, 2), big) != 0
    && var sh := ShapeOf(img.primary, big);
    && 8 <= sh.size && sh.count * sh.size <= |img.config|
  }

  // ---------------------------------------------------------- the records

  // A record with its CRC updated, if it is of a kind that has one.
  function StampRecord(rec: seq<byte>, foreign: bool, big: bool): (r: seq<byte>)
    requires |rec| >= 8
    ensures |r| == |rec|
  {
    if KindOf(rec, foreign, big).Other? then rec else Stamp(rec, |rec|, big)
  }

  predicate RecordMatches(rec: seq<byte>, foreign: bool, big: bool)
    requires |rec| >= 8
  {
    KindOf(rec, foreign, big).Other? || Matches(rec, |rec|, big)
  }

  predicate Long(recs: seq<seq<byte>>) {
    forall i :: 0 <= i < |recs| ==> |recs[i]| >= 8
  }

  function StampEach(recs: seq<seq<byte>>, foreign: bool, big: bool): (r: seq<seq<byte>>)
    requires Long(recs)
    ensures |r| == |recs| && Long(r)
    ensures forall i :: 0 <= i < |recs| ==> r[i] == StampRecord(recs[i], foreign, big)
  {
    seq(|recs|, i requires 0 <= i < |recs| => StampRecord(recs[i], foreign, big))
  }

  lemma StampRecordMatches(rec: seq<byte>, foreign: bool, big: bool)
    requires |rec| >= 8
    ensures RecordMatches(StampRecord(rec, foreign, big), foreign, big)
  {
    if !KindOf(rec, foreign, big).Other? {
      hide KindOfSignature, Stamp, Matches;
      StampMatches(rec, |rec|, big);
      StampKeeps(rec, |rec|, big, 0, 4);
    }
  }

  function StampArea(cfg: seq<byte>, sh: Shape, foreign: bool, big: bool): seq<byte>
    requires 8 <= sh.size && sh.count * sh.size <= |cfg|
  {
    Assemble(StampEach(RecordsOf(cfg, sh.size, sh.count), foreign, big), cfg[sh.count * sh.size..])
  }

  // ------------------------------------------------------------ the walks

  // ddf1_update_all_crcs
  function UpdateAll(img: Image, foreign: bool, big: bool): Image
    requires CrcSized(img, big)
  {
    var p := img.primary;
    img.(
      primary := Stamp(p, HEADER_SIZE, big),
      secondary := if img.secondary.Some? then Some(Stamp(img.secondary.value, HEADER_SIZE, big)) else None,
      adapter := if img.adapter.Some? then Some(Stamp(img.adapter.value, TableSize(p, ADAPTER_DATA_LEN, big), big))
        else None,
      diskData := Stamp(img.diskData, TableSize(p, DISK_DATA_LEN, big), big),
      physDrives := Stamp(img.physDrives, TableSize(p, PHYS_DRIVE_LEN, big), big),
      virtDrives := Stamp(img.virtDrives, TableSize(p, VIRT_DRIVE_LEN, big), big),
      config := StampArea(img.config, ShapeOf(p, big), foreign, big))
  }

  datatype Label =
    | Primary | Secondary | AdapterData | DiskData | PhysicalDrives | VirtualDrives
    | ConfigRecord(index: nat)

  function Report(ok: bool, what: Label): seq<Label> {
    if ok then [] else [what]
  }

  function ReportRecords(recs: seq<seq<byte>>, n: nat, foreign: bool, big: bool): seq<Label>
    requires Long(recs) && n <= |recs|
  {
    if n == 0 then []
    else ReportRecords(recs, n - 1, foreign, big) + Report(RecordMatches(recs[n - 1], foreign, big),
      ConfigRecord(n - 1))
  }

  // What ddf1_check_all_crcs logs: the tables from the last to the first, then the records.
  function Mismatches(img: Image, foreign: bool, big: bool): seq<Label>
    requires CrcSized(img, big)
  {
    var p := img.primary;
    var sh := ShapeOf(p, big);
    Report(Matches(img.virtDrives, TableSize(p, VIRT_DRIVE_LEN, big), big), VirtualDrives)
    + Report(Matches(img.physDrives, TableSize(p, PHYS_DRIVE_LEN, big), big), PhysicalDrives)
    + Report(Matches(img.diskData, TableSize(p, DISK_DATA_LEN, big), big), DiskData)
    + Report(img.adapter.None? || Matches(img.adapter.value, TableSize(p, ADAPTER_DATA_LEN, big), big), AdapterData)
    + Report(img.secondary.None? || Matches(img.secondary.value, HEADER_SIZE, big), Secondary)
    + Report(Matches(p, HEADER_SIZE, big), Primary)
    + ReportRecords(RecordsOf(img.config, sh.size, sh.count), sh.count, foreign, big)
  }

  lemma {:induction false} NothingToReport(recs: seq<seq<byte>>, n: nat, foreign: bool, big: bool)
    requires Long(recs) && n <= |recs|
    ensures ReportRecords(recs, n, foreign, big) == []
            <==> forall i :: 0 <= i < n ==> RecordMatches(recs[i], foreign, big)
  {
    hide RecordMatches, ReportRecords;
    if n > 0 {
      NothingToReport(recs, n - 1, foreign, big);
      ReportStep(recs, n, foreign, big);
    } else {
      ReportNone(recs, foreign, big);
    }
  }

  lemma ReportNone(recs: seq<seq<byte>>, foreign: bool, big: bool)
    requires Long(recs)
    ensures ReportRecords(recs, 0, foreign, big) == []
  {
  }

  lemma ReportStep(recs: seq<seq<byte>>, n: nat, foreign: bool, big: bool)
    requires Long(recs) && 0 < n <= |recs|
    ensures ReportRecords(recs, n, foreign, big) == []
            <==> ReportRecords(recs, n - 1, foreign, big) == [] && RecordMatches(recs[n - 1], foreign, big)
  {
    hide RecordMatches;
    var a := ReportRecords(recs, n - 1, foreign, big);
    var b := Report(RecordMatches(recs[n - 1], foreign, big), ConfigRecord(n - 1));
    assert |a + b| == |a| + |b|;
  }

  lemma StampedPrimary(p: seq<byte>, big: bool)
    requires |p| == HEADER_SIZE && Load(Part(p, 134, 2), big) != 0
    ensures var q := Stamp(p, HEADER_SIZE, big);
      && Load(Part(q, 134, 2), big) == Load(Part(p, 134, 2), big)
      && ShapeOf(q, big) == ShapeOf(p, big)
      && (forall off :: 8 <= off <= 508 ==> TableSize(q, off, big) == TableSize(p, off, big))
  {
    hide Stamp, Load;
    var q := Stamp(p, HEADER_SIZE, big);
    StampKeeps(p, HEADER_SIZE, big, 134, 2);
    StampKeeps(p, HEADER_SIZE, big, 220, 4);
    StampKeeps(p, HEADER_SIZE, big, 136, 2);
    StampKeeps(p, HEADER_SIZE, big, 128, 2);
    StampKeeps(p, HEADER_SIZE, big, 0, 4);
    forall off | 8 <= off <= 508 ensures TableSize(q, off, big) == TableSize(p, off, big) {
      StampKeeps(p, HEADER_SIZE, big, off, 4);
    }
  }

  lemma StampedArea(cfg: seq<byte>, sh: Shape, foreign: bool, big: bool)
    requires 8 <= sh.size && sh.count * sh.size <= |cfg|
    ensures var t := StampArea(cfg, sh, foreign, big);
      && |t| == |cfg|
      && RecordsOf(t, sh.size, sh.count) == StampEach(RecordsOf(cfg, sh.size, sh.count), foreign, big)
      && t[sh.count * sh.size..] == cfg[sh.count * sh.size..]
      && ReportRecords(RecordsOf(t, sh.size, sh.count), sh.count, foreign, big) == []
  {
    hide StampRecord, RecordMatches;
    var recs := RecordsOf(cfg, sh.size, sh.count);
    var each := StampEach(recs, foreign, big);
    RecordsOfAssembled(each, cfg[sh.count * sh.size..], sh.size);
    forall i | 0 <= i < sh.count ensures RecordMatches(each[i], foreign, big) {
      StampRecordMatches(recs[i], foreign, big);
    }
    NothingToReport(each, sh.count, foreign, big);
  }

  /** After the update walk the check walk finds nothing: every table and record
      holds the CRC that is recomputed, although the sizes and the record layout
      are read from a header that is itself stamped on the way.
   */
  lemma UpdateThenCheck(img: Image, foreign: bool, big: bool)
    requires CrcSized(img, big)
    ensures CrcSized(UpdateAll(img, foreign, big), big)
    ensures Mismatches(UpdateAll(img, foreign, big), foreign, big) == []
  {
    hide Stamp, Matches, Load, ShapeOf, StampArea, RecordsOf, ReportRecords, TableSize;
    var p := img.primary;
    StampedPrimary(p, big);
    StampMatches(p, HEADER_SIZE, big);
    if img.secondary.Some? {
      StampMatches(img.secondary.value, HEADER_SIZE, big);
    }
    if img.adapter.Some? {
      StampMatches(img.adapter.value, TableSize(p, ADAPTER_DATA_LEN, big), big);
    }
    StampMatches(img.diskData, TableSize(p, DISK_DATA_LEN, big), big);
    StampMatches(img.physDrives, TableSize(p, PHYS_DRIVE_LEN, big), big);
    StampMatches(img.virtDrives, TableSize(p, VIRT_DRIVE_LEN, big), big);
    StampedArea(img.config, ShapeOf(p, big), foreign, big);
  }

  // Two buffers that agree outside the crc field.
  predicate SameButCrc(s: seq<byte>, t: seq<byte>) {
    |s| == |t| && forall k :: 0 <= k < |s| && !(4 <= k < 8) ==> s[k] == t[k]
  }

  /** The CRC that belongs to a table is that of the table with its crc field set to ones. */
  lemma UnsetCrc(s: seq<byte>, t: seq<byte>, size: nat)
    requires 8 <= size <= |s| == |t| && SameButCrc(s, t) && t[4..8] == [0xFF, 0xFF, 0xFF, 0xFF]
    ensures TableCrc(s, size) == BitSerialCrc(Ones(32), t[..size])
  {
    hide BitSerialCrc;
    assert Masked(s) == t by {
      assert forall k :: 4 <= k < 8 ==> t[k] == t[4..8][k - 4];
    }
  }

  lemma StampTouchesCrc(s: seq<byte>, size: nat, big: bool)
    requires Holds(s, size)
    ensures SameButCrc(s, Stamp(s, size, big))
  {
    hide Store, TableCrc;
  }

  lemma StampRecordTouchesCrc(rec: seq<byte>, foreign: bool, big: bool)
    requires |rec| >= 8
    ensures SameRecord(rec, StampRecord(rec, foreign, big), foreign, big)
  {
    hide KindOf, Stamp;
    StampTouchesCrc(rec, |rec|, big);
  }

  predicate SameOption(s: Option<seq<byte>>, t: Option<seq<byte>>) {
    s.Some? == t.Some? && (s.Some? ==> SameButCrc(s.value, t.value))
  }

  // Only VD and spare records have a crc field.
  predicate SameRecord(rec: seq<byte>, r: seq<byte>, foreign: bool, big: bool)
    requires |rec| >= 8
  {
    if KindOf(rec, foreign, big).Other? then rec == r else SameButCrc(rec, r)
  }

  // The records of two configuration areas agree outside their crc fields, and so does
  // what follows them.
  predicate SameRecords(a: seq<byte>, b: seq<byte>, sh: Shape, foreign: bool, big: bool)
    requires 8 <= sh.size && sh.count * sh.size <= |a|
  {
    && |a| == |b| && a[sh.count * sh.size..] == b[sh.count * sh.size..]
    && forall i :: 0 <= i < sh.count ==>
      SameRecord(RecordsOf(a, sh.size, sh.count)[i], RecordsOf(b, sh.size, sh.count)[i], foreign, big)
  }

  lemma AreaTouchesCrcs(cfg: seq<byte>, sh: Shape, foreign: bool, big: bool)
    requires 8 <= sh.size && sh.count * sh.size <= |cfg|
    ensures SameRecords(cfg, StampArea(cfg, sh, foreign, big), sh, foreign, big)
  {
    hide SameRecord, StampRecord, StampArea, RecordsOf;
    StampedArea(cfg, sh, foreign, big);
    var recs := RecordsOf(cfg, sh.size, sh.count);
    forall i | 0 <= i < sh.count
      ensures SameRecord(recs[i], RecordsOf(StampArea(cfg, sh, foreign, big), sh.size, sh.count)[i], foreign, big)
    {
      StampRecordTouchesCrc(recs[i], foreign, big);
    }
  }

  /** The update walk changes nothing but crc fields: those of the tables, and those of
      the VD and spare records.
   */
  lemma UpdateTouchesCrcsOnly(img: Image, foreign: bool, big: bool)
    requires CrcSized(img, big)
    ensures var r := UpdateAll(img, foreign, big);
      && r.inCpu == img.inCpu && r.anchor == img.anchor
      && SameButCrc(img.primary, r.primary) && SameOption(img.secondary, r.secondary)
        && SameOption(img.adapter, r.adapter)
      && SameButCrc(img.diskData, r.diskData) && SameButCrc(img.physDrives, r.physDrives)
      && SameButCrc(img.virtDrives, r.virtDrives)
      && SameRecords(img.config, r.config, ShapeOf(img.primary, big), foreign, big)
  {
    hide Stamp, SameButCrc, ShapeOf, StampArea, SameRecords, TableSize, Load;
    var p := img.primary;
    StampTouchesCrc(p, HEADER_SIZE, big);
    StampTouchesCrc(img.diskData, TableSize(p, DISK_DATA_LEN, big), big);
    StampTouchesCrc(img.physDrives, TableSize(p, PHYS_DRIVE_LEN, big), big);
    StampTouchesCrc(img.virtDrives, TableSize(p, VIRT_DRIVE_LEN, big), big);
    if img.secondary.Some? {
      StampTouchesCrc(img.secondary.value, HEADER_SIZE, big);
    }
    if img.adapter.Some? {
      StampTouchesCrc(img.adapter.value, TableSize(p, ADAPTER_DATA_LEN, big), big);
    }
    AreaTouchesCrcs(img.config, ShapeOf(p, big), foreign, big);
  }
}
