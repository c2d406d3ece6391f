/** The DDF1 tables and records as field lists, lib/format/ddf/ddf1.h, and the
    conversion of tables whose entry count is one of the converted fields,
    lib/format/ddf/ddf1_cvt.c.
 */
module Ddf1Tables {
  import ByteOrder
  import opened Ddf1Fields

  // count neighbouring fields of one width, the first at off.
  datatype Run = Run(off: nat, count: nat, width: ByteOrder.Width)

  function Rows(row: seq<Field>, base: nat, stride: nat, n: nat): seq<Field> {
    if n == 0 then [] else Rows(row, base, stride, n - 1) + Shift(row, base + stride * (n - 1))
  }

  function RunFields(r: Run): seq<Field> {
    Rows([Field(0, r.width, r.width)], r.off, r.width, r.count)
  }

  function Fields(runs: seq<Run>): seq<Field> {
    if runs == [] then [] else RunFields(runs[0]) + Fields(runs[1..])
  }

  const HEADER_SIZE := 512

  // ddf1_cvt_header: SNIA DDF section 5.5.
  const HEADER: seq<Run> := [
    Run(0, 2, 4),    // signature, crc
    Run(40, 2, 4),   // seqnum, timestamp
    Run(96, 2, 8),   // primary_table_lba, secondary_table_lba
    Run(116, 1, 4),  // workspace_length
    Run(120, 1, 8),  // workspace_lba
    Run(128, 5, 2),  // max_phys_drives ... max_primary_elements
    Run(192, 16, 4)] // adapter_data_offset ... vendor_len

  // ddf1_cvt_adapter: signature, crc; pci_vendor ... pci_subdevice
  const ADAPTER: seq<Run> := [Run(0, 2, 4), Run(32, 4, 2)]

  // ddf1_cvt_disk_data: signature, crc; reference
  const DISK_DATA: seq<Run> := [Run(0, 2, 4), Run(32, 1, 4)]

  // ddf1_cvt_phys_drive_header, ddf1_cvt_virt_drive_header: signature, crc; num_drives, max_drives
  const DRIVES: seq<Run> := [Run(0, 2, 4), Run(8, 2, 2)]

  // ddf1_cvt_phys_drive: reference, type, state, size
  const PHYS_DRIVE: seq<Field> := [Field(24, 4, 4), Field(28, 2, 2), Field(30, 2, 2), Field(32, 8, 8)]

  // ddf1_cvt_virt_drive: the 16 bit vd_num, converted with CVT32; type
  const VIRT_DRIVE: seq<Field> := [Field(24, 2, 4), Field(28, 4, 4)]

  // ddf1_cvt_config_record: SNIA DDF section 5.9.
  const CONFIG: seq<Run> := [
    Run(0, 2, 4),    // signature, crc
    Run(32, 2, 4),   // timestamp, seqnum
    Run(64, 1, 2),   // primary_element_count
    Run(72, 2, 8),   // sectors, size
    Run(96, 8, 4),   // spares
    Run(128, 1, 8)]  // cache_policy

  // ddf1_cvt_spare_record: signature, crc, timestamp; num_spares, max_spares
  const SPARE_HEADER: seq<Run> := [Run(0, 3, 4), Run(20, 2, 2)]

  const SPARE: seq<Field> := [Field(24, 2, 2)]

  /** A structure with a fixed part and counted entries after it. The id array
      of a configuration record has room for cap elements.
   */
  datatype Layout = PhysDrives | VirtDrives | Spares | Config(cap: nat)

  function FixedPart(l: Layout): seq<Field> {
    match l
    case PhysDrives => Fields(DRIVES)
    case VirtDrives => Fields(DRIVES)
    case Spares => Fields(SPARE_HEADER)
    case Config(_) => Fields(CONFIG)
  }

  function FixedSize(l: Layout): nat {
    match l
    case PhysDrives => 64
    case VirtDrives => 64
    case Spares => 32
    case Config(_) => 512
  }

  // num_drives, num_spares, primary_element_count
  function CountAt(l: Layout): nat {
    match l
    case PhysDrives => 8
    case VirtDrives => 8
    case Spares => 20
    case Config(_) => 64
  }

  // ids[i] and off[i], interleaved as in the loop.
  function Elements(cap: nat, n: nat): (r: seq<Field>)
    ensures |r| == 2 * n
    ensures forall i :: 0 <= i < n ==> r[2 * i] == IdField(i) && r[2 * i + 1] == OffField(cap, i)
  {
    if n == 0 then [] else Elements(cap, n - 1) + [IdField(n - 1), OffField(cap, n - 1)]
  }

  function IdField(i: nat): Field {
    Field(512 + 4 * i, 4, 4)
  }

  function OffField(cap: nat, i: nat): Field {
    Field(512 + 4 * cap + 8 * i, 8, 8)
  }

  function Entries(l: Layout, n: nat): seq<Field> {
    match l
    case PhysDrives => Rows(PHYS_DRIVE, 64, 64, n)
    case VirtDrives => Rows(VIRT_DRIVE, 64, 64, n)
    case Spares => Rows(SPARE, 32, 32, n)
    case Config(cap) => Elements(cap, n)
  }

  function Extent(l: Layout, n: nat): nat {
    match l
    case PhysDrives => 64 + 64 * n
    case VirtDrives => 64 + 64 * n
    case Spares => 32 + 32 * n
    case Config(cap) => 512 + 4 * cap + 8 * n
  }

  predicate Between(fs: seq<Field>, lo: nat, hi: nat) {
    forall f :: f in fs ==> lo <= f.off && Usable(f, hi)
  }

  lemma JoinPlaced(a: seq<Field>, b: seq<Field>, lo: nat, mid: nat, hi: nat)
    requires lo <= mid <= hi
    requires Between(a, lo, mid) && Disjoint(a) && Between(b, mid, hi) && Disjoint(b)
    ensures Between(a + b, lo, hi) && Disjoint(a + b)
  {
    var c := a + b;
    forall i, j | 0 <= i < j < |c| ensures Apart(c[i], c[j]) {
      if i < |a| <= j {
        assert c[i] in a && c[j] in b;
      }
    }
    forall f | f in c ensures lo <= f.off && Usable(f, hi) {
      assert f in a || f in b;
      if f in a {
        assert Usable(f, mid);
      }
    }
  }

  lemma ShiftPlaced(row: seq<Field>, base: nat, stride: nat)
    requires AllUsable(row, stride) && Disjoint(row)
    ensures Between(Shift(row, base), base, base + stride) && Disjoint(Shift(row, base))
  {
    var r := Shift(row, base);
    forall f | f in r ensures base <= f.off && Usable(f, base + stride) {
      var i :| 0 <= i < |r| && r[i] == f;
      assert Usable(row[i], stride);
    }
    forall i, j | 0 <= i < j < |r| ensures Apart(r[i], r[j]) {
      assert Apart(row[i], row[j]);
    }
  }

  lemma {:induction false} RowsPlaced(row: seq<Field>, base: nat, stride: nat, n: nat)
    requires AllUsable(row, stride) && Disjoint(row)
    ensures Between(Rows(row, base, stride, n), base, base + stride * n)
    ensures Disjoint(Rows(row, base, stride, n))
  {
    if n > 0 {
      RowsPlaced(row, base, stride, n - 1);
      AppendRow(row, base, base + stride * (n - 1), stride, Rows(row, base, stride, n - 1));
      assert base + stride * (n - 1) + stride == base + stride * n;
    }
  }

  lemma AppendRow(row: seq<Field>, base: nat, mid: nat, stride: nat, before: seq<Field>)
    requires AllUsable(row, stride) && Disjoint(row)
    requires base <= mid && Between(before, base, mid) && Disjoint(before)
    ensures Between(before + Shift(row, mid), base, mid + stride) && Disjoint(before + Shift(row, mid))
  {
    ShiftPlaced(row, mid, stride);
    JoinPlaced(before, Shift(row, mid), base, mid, mid + stride);
  }

  function End(r: Run): nat {
    r.off + r.width * r.count
  }

  // Runs in increasing order between lo and hi.
  predicate Ascending(runs: seq<Run>, lo: nat, hi: nat) {
    && (runs == [] ==> lo <= hi)
    && (runs != [] ==> lo <= runs[0].off && End(runs[|runs| - 1]) <= hi)
    && (forall i :: 0 < i < |runs| ==> End(runs[i - 1]) <= runs[i].off)
  }

  lemma RunPlaced(r: Run)
    ensures Between(RunFields(r), r.off, End(r)) && Disjoint(RunFields(r))
    ensures forall f :: f in RunFields(r) ==> Exact(f)
  {
    RowsPlaced([Field(0, r.width, r.width)], r.off, r.width, r.count);
    RowsExact([Field(0, r.width, r.width)], r.off, r.width, r.count);
  }

  lemma {:induction false} RowsExact(row: seq<Field>, base: nat, stride: nat, n: nat)
    requires forall f :: f in row ==> Exact(f)
    ensures forall f :: f in Rows(row, base, stride, n) ==> Exact(f)
  {
    if n > 0 {
      RowsExact(row, base, stride, n - 1);
      var last := Shift(row, base + stride * (n - 1));
      forall f | f in last ensures Exact(f) {
        var i :| 0 <= i < |row| && last[i] == f;
        assert Exact(row[i]);
      }
    }
  }

  lemma {:induction false} AscendingPlaced(runs: seq<Run>, lo: nat, hi: nat)
    requires Ascending(runs, lo, hi)
    ensures lo <= hi && Between(Fields(runs), lo, hi) && Disjoint(Fields(runs))
    ensures forall f :: f in Fields(runs) ==> Exact(f)
    decreases runs
  {
    if runs != [] {
      var r := runs[0];
      RunPlaced(r);
      var rest := runs[1..];
      forall i | 0 < i < |rest| ensures End(rest[i - 1]) <= rest[i].off {
        var k := i + 1;
        assert rest[i - 1] == runs[k - 1] && rest[i] == runs[k];
      }
      AscendingPlaced(rest, End(r), hi);
      JoinPlaced(RunFields(r), Fields(runs[1..]), lo, End(r), hi);
    }
  }

  lemma {:induction false} ElementsUsable(cap: nat, n: nat)
    ensures Between(Elements(cap, n), 512, 512 + 4 * cap + 8 * n)
  {
    forall f | f in Elements(cap, n) ensures 512 <= f.off && Usable(f, 512 + 4 * cap + 8 * n) {
      var k :| 0 <= k < 2 * n && Elements(cap, n)[k] == f;
      assert k == 2 * (k / 2) || k == 2 * (k / 2) + 1;
      assert f == IdField(k / 2) || f == OffField(cap, k / 2);
    }
  }

  lemma ElementsDisjoint(cap: nat, n: nat)
    requires n <= cap
    ensures Disjoint(Elements(cap, n))
  {
    var e := Elements(cap, n);
    forall i, j | 0 <= i < j < |e| ensures Apart(e[i], e[j]) {
      assert i == 2 * (i / 2) || i == 2 * (i / 2) + 1;
      assert j == 2 * (j / 2) || j == 2 * (j / 2) + 1;
      assert e[i] == IdField(i / 2) || e[i] == OffField(cap, i / 2);
      assert e[j] == IdField(j / 2) || e[j] == OffField(cap, j / 2);
    }
  }

  lemma EntriesPlaced(l: Layout, n: nat)
    ensures Between(Entries(l, n), FixedSize(l), Extent(l, n))
    ensures !l.Config? ==> Disjoint(Entries(l, n))
  {
    match l
    case PhysDrives => RowsPlaced(PHYS_DRIVE, 64, 64, n);
    case VirtDrives => RowsPlaced(VIRT_DRIVE, 64, 64, n);
    case Spares => RowsPlaced(SPARE, 32, 32, n);
    case Config(cap) => ElementsUsable(cap, n);
  }

  lemma ConfigPlaced()
    ensures Between(Fields(CONFIG), 0, 512) && Disjoint(Fields(CONFIG))
    ensures forall f :: f in Fields(CONFIG) ==> Exact(f)
  {
    AscendingPlaced(CONFIG, 0, 512);
  }

  lemma FixedPlaced(l: Layout)
    ensures Between(FixedPart(l), 0, FixedSize(l)) && Disjoint(FixedPart(l))
    ensures forall f :: f in FixedPart(l) ==> Exact(f)
    ensures CountAt(l) + 2 <= FixedSize(l)
  {
    match l
    case PhysDrives => AscendingPlaced(DRIVES, 0, 64);
    case VirtDrives => AscendingPlaced(DRIVES, 0, 64);
    case Spares => AscendingPlaced(SPARE_HEADER, 0, 32);
    case Config(cap) => ConfigPlaced();
  }

  lemma HeaderPlaced()
    ensures Between(Fields(HEADER), 0, HEADER_SIZE) && Disjoint(Fields(HEADER))
    ensures forall f :: f in Fields(HEADER) ==> Exact(f)
  {
    AscendingPlaced(HEADER, 0, HEADER_SIZE);
  }

  lemma AdapterPlaced()
    ensures Between(Fields(ADAPTER), 0, 40) && Disjoint(Fields(ADAPTER))
    ensures forall f :: f in Fields(ADAPTER) ==> Exact(f)
  {
    AscendingPlaced(ADAPTER, 0, 40);
  }

  lemma DiskDataPlaced()
    ensures Between(Fields(DISK_DATA), 0, 36) && Disjoint(Fields(DISK_DATA))
    ensures forall f :: f in Fields(DISK_DATA) ==> Exact(f)
  {
    AscendingPlaced(DISK_DATA, 0, 36);
  }

  lemma BetweenUsable(fs: seq<Field>, lo: nat, hi: nat, len: nat)
    requires Between(fs, lo, hi) && hi <= len
    ensures AllUsable(fs, len)
  {
    forall f | f in fs ensures Usable(f, len) {
      assert Usable(f, hi);
    }
  }

}
