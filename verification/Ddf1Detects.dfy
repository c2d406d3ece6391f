/** What the check walk of lib/format/ddf/ddf1_crc.c notices: a change of up to four bytes in
    what the primary header says of the size of a table.
 */
module Ddf1Detects {
  import opened Bits
  import opened Buffers
  import opened ByteOrder
  import opened Crc32
  import Ddf1Tables
  import opened Ddf1Records
  import opened Ddf1Image
  import opened Ddf1Crc
  import opened Ddf1Members
  import opened Structs
  import Ddf1Reads
  import opened Optional

  // Two tables that differ at most in four bytes, beside the crc field or in it.
  predicate Patched(s: seq<byte>, t: seq<byte>, k: nat) {
    && |s| == |t| && k + 4 <= |s| && (k == 0 || k == 4 || 8 <= k)
    && forall p :: 0 <= p < |s| && !(k <= p < k + 4) ==> s[p] == t[p]
  }

  lemma SameCrc(v: Word, w: Word)
    ensures FromBits(v) == FromBits(w) <==> v == w
  {
    ToFromBits(v);
    ToFromBits(w);
  }

  lemma LoadIsOneToOne(p: seq<byte>, q: seq<byte>, big: bool)
    requires |p| == |q|
    ensures Load(p, big) == Load(q, big) <==> p == q
  {
    hide Number, Bytes;
    BytesOfNumber(Significance(p, big));
    BytesOfNumber(Significance(q, big));
    if big && Reverse(p) == Reverse(q) {
      ReverseTwice(p);
      ReverseTwice(q);
    }
  }

  lemma MaskedPatch(s: seq<byte>, t: seq<byte>, size: nat, k: nat)
    requires Patched(s, t, k) && k != 4 && 8 <= |s| && k + 4 <= size <= |s|
    ensures Part(s, 4, 4) == Part(t, 4, 4)
    ensures Masked(s)[..size] == Masked(t)[..size] <==> s == t
    ensures forall i :: 0 <= i < size && !(k <= i < k + 4) ==> Masked(s)[..size][i] == Masked(t)[..size][i]
  {
    var a, b := Masked(s)[..size], Masked(t)[..size];
    if a == b {
      forall p | 0 <= p < |s| ensures s[p] == t[p] {
        if k <= p < k + 4 {
          assert a[p] == s[p] && b[p] == t[p];
        }
      }
    }
  }

  lemma FieldPatch(s: seq<byte>, t: seq<byte>)
    requires Patched(s, t, 4) && 8 <= |s|
    ensures Masked(s) == Masked(t) && (Part(s, 4, 4) == Part(t, 4, 4) <==> s == t)
  {
    if Part(s, 4, 4) == Part(t, 4, 4) {
      forall p | 0 <= p < |s| ensures s[p] == t[p] {
        if 4 <= p < 8 {
          assert Part(s, 4, 4)[p - 4] == Part(t, 4, 4)[p - 4];
        }
      }
    }
  }

  /** A table that matches its CRC does so after such a change only if nothing was changed. */
  lemma PatchIsNoticed(s: seq<byte>, t: seq<byte>, size: nat, k: nat, big: bool)
    requires Holds(s, size) && Matches(s, size, big) && Patched(s, t, k) && k + 4 <= size
    ensures Matches(t, size, big) <==> s == t
  {
    hide Load, BitSerialCrc, Masked, FromBits;
    SameCrc(TableCrc(s, size), TableCrc(t, size));
    if k == 4 {
      FieldPatch(s, t);
      LoadIsOneToOne(Part(s, 4, 4), Part(t, 4, 4), big);
    } else {
      MaskedPatch(s, t, size, k);
      FourByteWindow(ALL_ONES, Masked(s)[..size], Masked(t)[..size], k);
    }
  }

  // -------------------------------------------------------------- the walk

  // The table of a label.
  function TableOf(img: Image, what: Label): Option<seq<byte>>
    requires !what.ConfigRecord?
  {
    match what
    case Primary => Some(img.primary)
    case Secondary => img.secondary
    case AdapterData => img.adapter
    case DiskData => Some(img.diskData)
    case PhysicalDrives => Some(img.physDrives)
    case VirtualDrives => Some(img.virtDrives)
  }

  // Its length in the primary header: the second numbers of the pairs of offset and length.
  function Blocks(p: seq<byte>, what: Label, big: bool): nat
    requires |p| == Ddf1Tables.HEADER_SIZE && !what.ConfigRecord?
  {
    HeaderFields();
    Ddf1Reads.HeaderOffsets();
    match what
    case AdapterData => WordAt(HEADER_MEMBERS, 10, 1, p, big)
    case PhysicalDrives => WordAt(HEADER_MEMBERS, 10, 3, p, big)
    case VirtualDrives => WordAt(HEADER_MEMBERS, 10, 5, p, big)
    case DiskData => WordAt(HEADER_MEMBERS, 10, 9, p, big)
    case _ => 1
  }

  // In bytes, as a number of 32 bits.
  function Covered(img: Image, what: Label, big: bool): nat
    requires |img.primary| == Ddf1Tables.HEADER_SIZE && !what.ConfigRecord?
  {
    512 * Blocks(img.primary, what, big) % B4
  }

  lemma CoveredIsSize(img: Image, what: Label, big: bool)
    requires |img.primary| == Ddf1Tables.HEADER_SIZE && !what.ConfigRecord?
    ensures Covered(img, what, big)
         == match what
            case Primary => Ddf1Tables.HEADER_SIZE
            case Secondary => Ddf1Tables.HEADER_SIZE
            case AdapterData => TableSize(img.primary, ADAPTER_DATA_LEN, big)
            case DiskData => TableSize(img.primary, DISK_DATA_LEN, big)
            case PhysicalDrives => TableSize(img.primary, PHYS_DRIVE_LEN, big)
            case VirtualDrives => TableSize(img.primary, VIRT_DRIVE_LEN, big)
  {
    hide Load;
    HeaderFields();
    Ddf1Reads.HeaderOffsets();
  }

  // A table that the check finds in order.
  predicate InOrder(img: Image, what: Label, big: bool)
    requires CrcSized(img, big) && !what.ConfigRecord?
  {
    CoveredIsSize(img, what, big);
    TableOf(img, what).None? || Matches(TableOf(img, what).value, Covered(img, what, big), big)
  }

  // A record among the first n that does not match.
  predicate RecordWrong(recs: seq<seq<byte>>, n: nat, foreign: bool, big: bool, x: Label)
    requires Long(recs) && n <= |recs|
  {
    x.ConfigRecord? && x.index < n && !RecordMatches(recs[x.index], foreign, big)
  }

  lemma {:induction false} RecordsAreReported(recs: seq<seq<byte>>, n: nat, foreign: bool, big: bool)
    requires Long(recs) && n <= |recs|
    ensures forall x :: x in ReportRecords(recs, n, foreign, big) <==> RecordWrong(recs, n, foreign, big, x)
  {
    hide RecordMatches;
    if n > 0 {
      RecordsAreReported(recs, n - 1, foreign, big);
    }
  }

  lemma InSeven(a: seq<Label>, b: seq<Label>, c: seq<Label>, d: seq<Label>, e: seq<Label>, f: seq<Label>,
                g: seq<Label>, x: Label)
    ensures x in a + b + c + d + e + f + g
            <==> x in a || x in b || x in c || x in d || x in e || x in f || x in g
  {
  }

  // What is reported of the tables, by label.
  lemma TableReported(img: Image, foreign: bool, big: bool, x: Label)
    requires CrcSized(img, big)
    ensures var p, sh := img.primary, ShapeOf(img.primary, big);
      x in Mismatches(img, foreign, big)
      <==> match x
           case VirtualDrives => !Matches(img.virtDrives, TableSize(p, VIRT_DRIVE_LEN, big), big)
           case PhysicalDrives => !Matches(img.physDrives, TableSize(p, PHYS_DRIVE_LEN, big), big)
           case DiskData => !Matches(img.diskData, TableSize(p, DISK_DATA_LEN, big), big)
           case AdapterData =>
             img.adapter.Some? && !Matches(img.adapter.value, TableSize(p, ADAPTER_DATA_LEN, big), big)
           case Secondary => img.secondary.Some? && !Matches(img.secondary.value, Ddf1Tables.HEADER_SIZE, big)
           case Primary => !Matches(p, Ddf1Tables.HEADER_SIZE, big)
           case ConfigRecord(_) =>
             RecordWrong(RecordsOf(img.config, sh.size, sh.count), sh.count, foreign, big, x)
  {
    hide Matches, RecordWrong, Load, ShapeOf, RecordsOf, TableSize, ReportRecords;
    var p, sh := img.primary, ShapeOf(img.primary, big);
    var recs := RecordsOf(img.config, sh.size, sh.count);
    RecordsAreReported(recs, sh.count, foreign, big);
    if !x.ConfigRecord? {
      NoTableThere(recs, sh.count, foreign, big, x);
    }
    InSeven(Report(Matches(img.virtDrives, TableSize(p, VIRT_DRIVE_LEN, big), big), VirtualDrives),
      Report(Matches(img.physDrives, TableSize(p, PHYS_DRIVE_LEN, big), big), PhysicalDrives),
      Report(Matches(img.diskData, TableSize(p, DISK_DATA_LEN, big), big), DiskData),
      Report(img.adapter.None? || Matches(img.adapter.value, TableSize(p, ADAPTER_DATA_LEN, big), big), AdapterData),
      Report(img.secondary.None? || Matches(img.secondary.value, Ddf1Tables.HEADER_SIZE, big), Secondary),
      Report(Matches(p, Ddf1Tables.HEADER_SIZE, big), Primary), ReportRecords(recs, sh.count, foreign, big), x);
  }

  lemma NoTableThere(recs: seq<seq<byte>>, n: nat, foreign: bool, big: bool, x: Label)
    requires Long(recs) && n <= |recs| && !x.ConfigRecord?
    ensures x !in ReportRecords(recs, n, foreign, big)
  {
    hide ReportRecords;
    RecordsAreReported(recs, n, foreign, big);
  }

  /** The walk reports exactly the tables that are not in order, and the records. */
  lemma ReportedIff(img: Image, foreign: bool, big: bool, x: Label)
    requires CrcSized(img, big) && !x.ConfigRecord?
    ensures x in Mismatches(img, foreign, big) <==> !InOrder(img, x, big)
  {
    hide Matches, Load, ShapeOf, Covered, TableSize, Mismatches;
    TableReported(img, foreign, big, x);
    CoveredIsSize(img, x, big);
  }

  /** When a table was in order, a change of up to four bytes within the blocks that the primary
      header counts is reported, and nothing else makes the walk report it.
   */
  lemma ChangeIsReported(img: Image, changed: Image, x: Label, k: nat, foreign: bool, big: bool)
    requires CrcSized(img, big) && CrcSized(changed, big) && !x.ConfigRecord? && x !in Mismatches(img, foreign, big)
    requires x == Primary || changed.primary == img.primary
    requires TableOf(img, x).Some? && TableOf(changed, x).Some?
    requires Patched(TableOf(img, x).value, TableOf(changed, x).value, k) && k + 4 <= Covered(img, x, big)
    ensures x in Mismatches(changed, foreign, big) <==> TableOf(changed, x) != TableOf(img, x)
  {
    hide Matches, Mismatches, Patched, Load, ShapeOf, Covered, TableSize;
    ReportedIff(img, foreign, big, x);
    ReportedIff(changed, foreign, big, x);
    CoveredIsSize(img, x, big);
    CoveredIsSize(changed, x, big);
    PatchIsNoticed(TableOf(img, x).value, TableOf(changed, x).value, Covered(img, x, big), k, big);
  }

  // The i-th record of an image.
  function RecordIn(img: Image, i: nat, big: bool): seq<byte>
    requires CrcSized(img, big) && i < ShapeOf(img.primary, big).count
  {
    var sh := ShapeOf(img.primary, big);
    RecordsOf(img.config, sh.size, sh.count)[i]
  }

  /** The same for VD and spare records, behind their signature. */
  lemma RecordChangeIsReported(img: Image, changed: Image, i: nat, k: nat, foreign: bool, big: bool)
    requires CrcSized(img, big) && CrcSized(changed, big) && changed.primary == img.primary
    requires i < ShapeOf(img.primary, big).count && ConfigRecord(i) !in Mismatches(img, foreign, big)
    requires Patched(RecordIn(img, i, big), RecordIn(changed, i, big), k) && k >= 4
    requires |RecordIn(img, i, big)| >= 4 && !KindOf(RecordIn(img, i, big), foreign, big).Other?
    ensures ConfigRecord(i) in Mismatches(changed, foreign, big)
            <==> RecordIn(changed, i, big) != RecordIn(img, i, big)
  {
    hide Matches, Mismatches, Load, ShapeOf, TableSize, KindOf, RecordsOf;
    TableReported(img, foreign, big, ConfigRecord(i));
    TableReported(changed, foreign, big, ConfigRecord(i));
    var s, t := RecordIn(img, i, big), RecordIn(changed, i, big);
    assert Part(s, 0, 4) == Part(t, 0, 4);
    SameSignature(s, t, foreign, big);
    PatchIsNoticed(s, t, |s|, k, big);
  }
}
