/** The structures of lib/format/ddf/ddf1.h as they are declared, and what a conversion makes
    of them: every number reads on the host as it read in the byte order of the disk, and
    every character stays.
 */
module Ddf1Members {
  import opened Bits
  import opened Buffers
  import opened ByteOrder
  import opened Structs
  import opened Ddf1Fields
  import opened Ddf1Tables
  import opened Ddf1Cvt

  // ------------------------------------------------------------ declarations

  // struct ddf1_header
  const HEADER_MEMBERS: seq<Group> := [
    Words(2, 4),   // signature, crc
    Chars(32),     // guid, ddf_rev
    Words(2, 4),   // seqnum, timestamp
    Chars(48),     // open_flag, foreign_flag, grouping_enforced, reserved2
    Words(2, 8),   // primary_table_lba, secondary_table_lba
    Chars(4),      // header_type, reserved3
    Words(1, 4),   // workspace_length
    Words(1, 8),   // workspace_lba
    Words(5, 2),   // max_phys_drives, max_virt_drives, max_partitions, vd_config_record_len, max_primary_elements
    Chars(54),     // reserved4
    Words(16, 4),  // adapter_data, phys_drive, virt_drive, config_record, disk_data, badblock, diag, vendor:
                   // offset and len of each
    Chars(256)]    // reserved5

  // struct ddf1_adapter without its data: signature, crc; guid; pci_vendor ... pci_subdevice
  const ADAPTER_MEMBERS: seq<Group> := [Words(2, 4), Chars(24), Words(4, 2)]

  // struct ddf1_disk_data up to its flags: signature, crc; guid; reference
  const DISK_DATA_MEMBERS: seq<Group> := [Words(2, 4), Chars(24), Words(1, 4)]

  // struct ddf1_phys_drives, struct ddf1_virt_drives: signature, crc; num_drives, max_drives; reserved2
  const DRIVES_MEMBERS: seq<Group> := [Words(2, 4), Words(2, 2), Chars(52)]

  // struct ddf1_phys_drive: guid; reference; type, state; size; path_info, reserved3
  const PHYS_DRIVE_MEMBERS: seq<Group> := [Chars(24), Words(1, 4), Words(2, 2), Words(1, 8), Chars(24)]

  // struct ddf1_virt_drive: guid; vd_num; reserved2; type; state, init_state, reserved3, name
  const VIRT_DRIVE_MEMBERS: seq<Group> := [Chars(24), Words(1, 2), Chars(2), Words(1, 4), Chars(32)]

  const VD_NUM := 1   // its place there

  // struct ddf1_config_record
  const CONFIG_MEMBERS: seq<Group> := [
    Words(2, 4),   // signature, crc
    Chars(24),     // guid
    Words(2, 4),   // timestamp, seqnum
    Chars(24),     // reserved
    Words(1, 2),   // primary_element_count
    Chars(6),      // stripe_size ... secondary_element_raid_level
    Words(2, 8),   // sectors, size
    Chars(8),      // reserved2
    Words(8, 4),   // spares
    Words(1, 8),   // cache_policy
    Chars(376)]    // bg_task_rate, reserved3

  // struct ddf1_spare_header: signature, crc, timestamp; reserved, type; num_spares, max_spares; reserved2
  const SPARES_MEMBERS: seq<Group> := [Words(3, 4), Chars(8), Words(2, 2), Chars(8)]

  // struct ddf1_spare: guid; secondary_element; reserved
  const SPARE_MEMBERS: seq<Group> := [Chars(24), Words(1, 2), Chars(6)]

  // -------------------------------------------------------- what a reader sees

  // The i-th number of a group.
  function WordAt(ms: seq<Group>, k: nat, i: nat, s: seq<byte>, big: bool): nat
    requires k < |ms| && ms[k].Words? && i < ms[k].count
    requires Offset(ms, k) + Size(ms[k]) <= |s|
  {
    InGroup(ms[k], i);
    Load(Part(s, Offset(ms, k) + ms[k].width * i, ms[k].width), big)
  }

  lemma InGroup(m: Group, i: nat)
    requires m.Words? && i < m.count
    ensures m.width * i + m.width <= Size(m)
  {
    assert m.width * (i + 1) <= m.width * m.count;
  }

  // After a conversion from s to t: a number reads on the host as it did in the other order.
  predicate ReadsAt(ms: seq<Group>, k: nat, s: seq<byte>, t: seq<byte>, big: bool)
    requires k < |ms|
  {
    && Offset(ms, k) + Size(ms[k]) <= |s| == |t|
    && match ms[k]
       case Chars(n) => Part(t, Offset(ms, k), n) == Part(s, Offset(ms, k), n)
       case Words(n, _) => forall i :: 0 <= i < n ==> WordAt(ms, k, i, t, big) == WordAt(ms, k, i, s, !big)
  }

  predicate Reads(ms: seq<Group>, s: seq<byte>, t: seq<byte>, big: bool) {
    forall k :: 0 <= k < |ms| ==> ReadsAt(ms, k, s, t, big)
  }

  // --------------------------------------------------------- runs of members

  // The runs of numbers in the first k groups.
  function RunsOf(ms: seq<Group>, k: nat): (r: seq<Run>)
    requires k <= |ms|
    decreases k
  {
    if k == 0 then []
    else
      match ms[k - 1]
      case Chars(_) => RunsOf(ms, k - 1)
      case Words(n, w) => RunsOf(ms, k - 1) + [Run(Offset(ms, k - 1), n, w)]
  }

  lemma {:induction false} FieldsAppend(runs: seq<Run>, r: Run)
    ensures Fields(runs + [r]) == Fields(runs) + RunFields(r)
  {
    if runs == [] {
      assert (runs + [r])[1..] == [];
      assert [r] == runs + [r];
      assert Fields(runs + [r]) == RunFields(r) + Fields([]);
    } else {
      assert (runs + [r])[1..] == runs[1..] + [r];
      FieldsAppend(runs[1..], r);
    }
  }

  lemma ReverseReads(p: seq<byte>, big: bool)
    ensures Load(Reverse(p), big) == Load(p, !big)
  {
    ReverseTwice(p);
  }

  // Where the i-th number of a row is.
  function Slot(off: nat, w: Width, i: nat): nat {
    off + w * i
  }

  predicate Outside(p: nat, off: nat, w: Width, n: nat) {
    p < off || Slot(off, w, n) <= p
  }

  // The n numbers at off are reversed, and nothing else is changed.
  predicate RowSwapped(s: seq<byte>, t: seq<byte>, off: nat, w: Width, n: nat) {
    && |s| == |t| && Slot(off, w, n) <= |s|
    && (forall p :: 0 <= p < |s| && Outside(p, off, w, n) ==> t[p] == s[p])
    && forall i :: 0 <= i < n ==> SlotSwapped(s, t, Slot(off, w, i), w)
  }

  predicate SlotSwapped(s: seq<byte>, t: seq<byte>, at: nat, w: Width)
    requires |s| == |t|
  {
    at + w <= |s| && Part(t, at, w) == Reverse(Part(s, at, w))
  }

  function Row(off: nat, w: Width, n: nat): seq<Field> {
    Rows([Field(0, w, w)], off, w, n)
  }

  lemma {:induction false} RowReads(s: seq<byte>, off: nat, w: Width, n: nat)
    requires Slot(off, w, n) <= |s|
    ensures AllUsable(Row(off, w, n), |s|) && RowSwapped(s, CvtFields(s, Row(off, w, n)), off, w, n)
    decreases n
  {
    if n == 0 {
    } else {
      assert w * n == w * (n - 1) + w;
      RowReads(s, off, w, n - 1);
      var before, f := Row(off, w, n - 1), Field(Slot(off, w, n - 1), w, w);
      RowMore(off, w, n);
      CvtFieldsConcat(s, before, [f]);
      OneField(CvtFields(s, before), f);
      OneMoreSwapped(s, CvtFields(s, before), off, w, n);
    }
  }

  lemma RowMore(off: nat, w: Width, n: nat)
    requires n > 0
    ensures Row(off, w, n) == Row(off, w, n - 1) + [Field(Slot(off, w, n - 1), w, w)]
  {
    assert Shift([Field(0, w, w)], off + w * (n - 1)) == [Field(off + w * (n - 1), w, w)];
  }

  lemma OneField(s: seq<byte>, f: Field)
    requires Usable(f, |s|)
    ensures CvtFields(s, [f]) == CvtField(s, f)
  {
    assert [f][1..] == [];
  }

  lemma OneMoreSwapped(s: seq<byte>, u: seq<byte>, off: nat, w: Width, n: nat)
    requires n > 0 && RowSwapped(s, u, off, w, n - 1) && Slot(off, w, n) <= |s|
    requires Slot(off, w, n) == Slot(off, w, n - 1) + w
    ensures RowSwapped(s, CvtField(u, Field(Slot(off, w, n - 1), w, w)), off, w, n)
  {
    var at := Slot(off, w, n - 1);
    var f := Field(at, w, w);
    var t := CvtField(u, f);
    assert Part(u, at, w) == Part(s, at, w);
    PartOfSplice(u, at, Reverse(Part(u, at, w)));
    forall i | 0 <= i < n ensures SlotSwapped(s, t, Slot(off, w, i), w) {
      if i < n - 1 {
        assert SlotSwapped(s, u, Slot(off, w, i), w);
        SlotsApart(off, w, i, n - 1);
        CvtFieldElsewhere(u, f, Slot(off, w, i), w);
      }
    }
  }

  lemma SlotsApart(off: nat, w: Width, i: nat, n: nat)
    requires i < n
    ensures Slot(off, w, i) + w <= Slot(off, w, n)
  {
    assert w * (i + 1) <= w * n;
  }

  // --------------------------------------------------------- one structure

  // The first k groups are converted and nothing behind them.
  predicate ReadsTo(ms: seq<Group>, k: nat, s: seq<byte>, t: seq<byte>, big: bool)
    requires k <= |ms|
  {
    && Offset(ms, k) <= |s| == |t|
    && (forall j :: 0 <= j < k ==> ReadsAt(ms, j, s, t, big))
    && forall p :: Offset(ms, k) <= p < |s| ==> t[p] == s[p]
  }

  lemma {:induction false} OffsetsGrow(ms: seq<Group>, j: nat, k: nat)
    requires j < k <= |ms|
    ensures Offset(ms, j) + Size(ms[j]) <= Offset(ms, k)
  {
    if j < k - 1 {
      OffsetsGrow(ms, j, k - 1);
    }
  }

  predicate SameBelow(u: seq<byte>, t: seq<byte>, at: nat) {
    |u| == |t| && at <= |u| && forall p :: 0 <= p < at ==> t[p] == u[p]
  }

  lemma PartBelow(u: seq<byte>, t: seq<byte>, at: nat, off: nat, n: nat)
    requires SameBelow(u, t, at) && off + n <= at
    ensures Part(t, off, n) == Part(u, off, n)
  {
  }

  lemma WordBelow(ms: seq<Group>, k: nat, i: nat, u: seq<byte>, t: seq<byte>, at: nat, big: bool)
    requires k < |ms| && ms[k].Words? && i < ms[k].count && SameBelow(u, t, at) && Offset(ms, k) + Size(ms[k]) <= at
    ensures WordAt(ms, k, i, t, big) == WordAt(ms, k, i, u, big)
  {
    hide SameBelow, Load, Offset;
    InGroup(ms[k], i);
    PartBelow(u, t, at, Offset(ms, k) + ms[k].width * i, ms[k].width);
  }

  // A conversion behind a group does not change what is read of it.
  lemma StillReads(ms: seq<Group>, k: nat, s: seq<byte>, u: seq<byte>, t: seq<byte>, at: nat, big: bool)
    requires k < |ms| && ReadsAt(ms, k, s, u, big) && SameBelow(u, t, at) && Offset(ms, k) + Size(ms[k]) <= at
    ensures ReadsAt(ms, k, s, t, big)
  {
    hide WordAt, Offset;
    match ms[k]
    case Chars(n) => PartBelow(u, t, at, Offset(ms, k), n);
    case Words(n, w) =>
      forall i | 0 <= i < n ensures WordAt(ms, k, i, t, big) == WordAt(ms, k, i, s, !big) {
        WordBelow(ms, k, i, u, t, at, big);
      }
  }

  lemma WordIsRead(ms: seq<Group>, k: nat, i: nat, s: seq<byte>, u: seq<byte>, t: seq<byte>, big: bool)
    requires k < |ms| && ms[k].Words? && i < ms[k].count && |s| == |u| == |t| && Offset(ms, k) + Size(ms[k]) <= |s|
    requires SlotSwapped(u, t, Slot(Offset(ms, k), ms[k].width, i), ms[k].width)
    requires forall p :: Offset(ms, k) <= p < |s| ==> u[p] == s[p]
    ensures WordAt(ms, k, i, t, big) == WordAt(ms, k, i, s, !big)
  {
    hide Load, Offset;
    var w := ms[k].width;
    var at := Slot(Offset(ms, k), w, i);
    InGroup(ms[k], i);
    assert Part(u, at, w) == Part(s, at, w);
    ReverseReads(Part(s, at, w), big);
  }

  // A row of numbers that is reversed reads in the other order.
  lemma RowIsRead(ms: seq<Group>, k: nat, s: seq<byte>, u: seq<byte>, t: seq<byte>, big: bool)
    requires k < |ms| && ms[k].Words? && |s| == |u|
    requires RowSwapped(u, t, Offset(ms, k), ms[k].width, ms[k].count)
    requires forall p :: Offset(ms, k) <= p < |s| ==> u[p] == s[p]
    ensures ReadsAt(ms, k, s, t, big)
  {
    hide WordAt, SlotSwapped, Offset;
    forall i | 0 <= i < ms[k].count ensures WordAt(ms, k, i, t, big) == WordAt(ms, k, i, s, !big) {
      WordIsRead(ms, k, i, s, u, t, big);
    }
  }

  lemma {:induction false} MembersRead(ms: seq<Group>, k: nat, s: seq<byte>, big: bool)
    requires k <= |ms| && Offset(ms, k) <= |s|
    ensures AllUsable(Fields(RunsOf(ms, k)), |s|)
    ensures ReadsTo(ms, k, s, CvtFields(s, Fields(RunsOf(ms, k))), big)
    decreases k
  {
    hide ReadsAt, RowSwapped, Row;
    if k == 0 {
      NoRuns(ms, s);
    } else {
      MembersRead(ms, k - 1, s, big);
      var u := CvtFields(s, Fields(RunsOf(ms, k - 1)));
      match ms[k - 1]
      case Chars(n) => CharsStay(ms, k, s, u, big);
      case Words(n, w) =>
        var o := Offset(ms, k - 1);
        FieldsAppend(RunsOf(ms, k - 1), Run(o, n, w));
        RowReads(u, o, w, n);
        RunIsRow(o, n, w);
        CvtFieldsConcat(s, Fields(RunsOf(ms, k - 1)), Row(o, w, n));
        WordsTurn(ms, k, s, u, CvtFields(u, Row(o, w, n)), big);
    }
  }

  lemma RunIsRow(off: nat, n: nat, w: Width)
    ensures RunFields(Run(off, n, w)) == Row(off, w, n)
  {
  }

  lemma NoRuns(ms: seq<Group>, s: seq<byte>)
    ensures RunsOf(ms, 0) == [] && Fields([]) == [] && CvtFields(s, []) == s
  {
  }

  lemma CharsStay(ms: seq<Group>, k: nat, s: seq<byte>, u: seq<byte>, big: bool)
    requires 0 < k <= |ms| && ms[k - 1].Chars? && Offset(ms, k) <= |s| && ReadsTo(ms, k - 1, s, u, big)
    ensures ReadsTo(ms, k, s, u, big)
  {
    hide WordAt;
    var o, n := Offset(ms, k - 1), ms[k - 1].count;
    assert Part(u, o, n) == Part(s, o, n);
  }

  lemma RowOutside(u: seq<byte>, t: seq<byte>, off: nat, w: Width, n: nat)
    requires RowSwapped(u, t, off, w, n)
    ensures off <= Slot(off, w, n) <= |u| == |t| && SameBelow(u, t, off)
    ensures forall p :: Slot(off, w, n) <= p < |u| ==> t[p] == u[p]
  {
    hide SlotSwapped;
  }

  lemma WordsTurn(ms: seq<Group>, k: nat, s: seq<byte>, u: seq<byte>, t: seq<byte>, big: bool)
    requires 0 < k <= |ms| && ms[k - 1].Words? && ReadsTo(ms, k - 1, s, u, big)
    requires RowSwapped(u, t, Offset(ms, k - 1), ms[k - 1].width, ms[k - 1].count)
    ensures ReadsTo(ms, k, s, t, big)
  {
    hide ReadsAt, RowSwapped, SameBelow;
    var o, w, n := Offset(ms, k - 1), ms[k - 1].width, ms[k - 1].count;
    RowOutside(u, t, o, w, n);
    assert Slot(o, w, n) == Offset(ms, k);
    RowIsRead(ms, k - 1, s, u, t, big);
    forall j | 0 <= j < k - 1 ensures ReadsAt(ms, j, s, t, big) {
      OffsetsGrow(ms, j, k - 1);
      StillReads(ms, j, s, u, t, o, big);
    }
  }

  /** A conversion of exactly the numbers that a structure declares translates it. */
  lemma StructureReads(ms: seq<Group>, runs: seq<Run>, s: seq<byte>, big: bool)
    requires RunsOf(ms, |ms|) == runs && Total(ms) <= |s|
    ensures AllUsable(Fields(runs), |s|)
    ensures var t := CvtFields(s, Fields(runs));
      Reads(ms, s, t, big) && forall p :: Total(ms) <= p < |s| ==> t[p] == s[p]
  {
    hide ReadsAt;
    MembersRead(ms, |ms|, s, big);
  }

  // ------------------------------------ the fields of the code are the numbers declared

  lemma HeaderFields()
    ensures RunsOf(HEADER_MEMBERS, |HEADER_MEMBERS|) == HEADER && Total(HEADER_MEMBERS) == HEADER_SIZE
  {
    var ms := HEADER_MEMBERS;
    assert Offset(ms, 1) == 8 && Offset(ms, 2) == 40 && Offset(ms, 3) == 48 && Offset(ms, 4) == 96;
    assert Offset(ms, 5) == 112 && Offset(ms, 6) == 116 && Offset(ms, 7) == 120 && Offset(ms, 8) == 128;
    assert Offset(ms, 9) == 138 && Offset(ms, 10) == 192 && Offset(ms, 11) == 256;
    assert RunsOf(ms, 3) == HEADER[..2];
    assert RunsOf(ms, 6) == HEADER[..3];
    assert RunsOf(ms, 9) == HEADER[..6];
  }

  lemma AdapterFields()
    ensures RunsOf(ADAPTER_MEMBERS, |ADAPTER_MEMBERS|) == ADAPTER && Total(ADAPTER_MEMBERS) == 40
  {
    assert Offset(ADAPTER_MEMBERS, 1) == 8 && Offset(ADAPTER_MEMBERS, 2) == 32;
  }

  lemma DiskDataFields()
    ensures RunsOf(DISK_DATA_MEMBERS, |DISK_DATA_MEMBERS|) == DISK_DATA && Total(DISK_DATA_MEMBERS) == 36
  {
    assert Offset(DISK_DATA_MEMBERS, 1) == 8 && Offset(DISK_DATA_MEMBERS, 2) == 32;
  }

  lemma DrivesFields()
    ensures RunsOf(DRIVES_MEMBERS, |DRIVES_MEMBERS|) == DRIVES && Total(DRIVES_MEMBERS) == 64
  {
    assert Offset(DRIVES_MEMBERS, 1) == 8 && Offset(DRIVES_MEMBERS, 2) == 12;
  }

  lemma ConfigFields()
    ensures RunsOf(CONFIG_MEMBERS, |CONFIG_MEMBERS|) == CONFIG && Total(CONFIG_MEMBERS) == 512
  {
    var ms := CONFIG_MEMBERS;
    assert Offset(ms, 1) == 8 && Offset(ms, 2) == 32 && Offset(ms, 3) == 40 && Offset(ms, 4) == 64;
    assert Offset(ms, 5) == 66 && Offset(ms, 6) == 72 && Offset(ms, 7) == 88 && Offset(ms, 8) == 96;
    assert Offset(ms, 9) == 128 && Offset(ms, 10) == 136;
    assert RunsOf(ms, 3) == CONFIG[..2];
    assert RunsOf(ms, 6) == CONFIG[..3];
    assert RunsOf(ms, 9) == CONFIG[..5];
  }

  lemma SparesFields()
    ensures RunsOf(SPARES_MEMBERS, |SPARES_MEMBERS|) == SPARE_HEADER && Total(SPARES_MEMBERS) == 32
  {
    assert Offset(SPARES_MEMBERS, 1) == 12 && Offset(SPARES_MEMBERS, 2) == 20 && Offset(SPARES_MEMBERS, 3) == 24;
  }

  lemma OneRun(r: Run)
    ensures Fields([r]) == RunFields(r)
  {
    assert [r][1..] == [];
  }

  lemma RowOfOne(off: nat, w: Width)
    ensures Row(off, w, 1) == [Field(off, w, w)]
  {
    RowMore(off, w, 1);
  }

  lemma SpareFields()
    ensures Fields(RunsOf(SPARE_MEMBERS, |SPARE_MEMBERS|)) == SPARE && Total(SPARE_MEMBERS) == 32
  {
    var ms := SPARE_MEMBERS;
    assert Offset(ms, 1) == 24 && Offset(ms, 2) == 26;
    assert RunsOf(ms, 3) == [Run(24, 1, 2)];
    OneRun(Run(24, 1, 2));
    RowOfOne(24, 2);
  }

  lemma PhysDriveFields()
    ensures Fields(RunsOf(PHYS_DRIVE_MEMBERS, |PHYS_DRIVE_MEMBERS|)) == PHYS_DRIVE && Total(PHYS_DRIVE_MEMBERS) == 64
  {
    var ms := PHYS_DRIVE_MEMBERS;
    assert Offset(ms, 1) == 24 && Offset(ms, 2) == 28 && Offset(ms, 3) == 32 && Offset(ms, 4) == 40;
    var a, b, c := Run(24, 1, 4), Run(28, 2, 2), Run(32, 1, 8);
    assert RunsOf(ms, 2) == [a];
    assert RunsOf(ms, 5) == [a] + [b] + [c];
    OneRun(a);
    FieldsAppend([a], b);
    FieldsAppend([a] + [b], c);
    RowOfOne(24, 4);
    RowOfOne(28, 2);
    RowMore(28, 2, 2);
    RowOfOne(32, 8);
  }

  // The virtual drive without vd_num, which goes with the characters.
  const NAMELESS_MEMBERS: seq<Group> := [Chars(28), Words(1, 4), Chars(32)]

  lemma VirtDriveFields()
    ensures Fields(RunsOf(NAMELESS_MEMBERS, |NAMELESS_MEMBERS|)) == [Field(28, 4, 4)]
    ensures Total(NAMELESS_MEMBERS) == Total(VIRT_DRIVE_MEMBERS) == 64
  {
    var ms := NAMELESS_MEMBERS;
    assert Offset(ms, 1) == 28 && Offset(ms, 2) == 32;
    assert RunsOf(ms, 3) == [Run(28, 1, 4)];
    OneRun(Run(28, 1, 4));
    RowOfOne(28, 4);
    assert Offset(VIRT_DRIVE_MEMBERS, 4) == 32;
  }
}
