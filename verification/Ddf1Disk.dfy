/** The DDF1 metadata of a disk in memory, struct ddf1 of lib/format/ddf/ddf1.h,
    and the operations that change it in place: ddf1_cvt_all with the converters
    of lib/format/ddf/ddf1_cvt.c, and all_crcs of lib/format/ddf/ddf1_crc.c.
 */
module Ddf1Disk {
  import opened Bits
  import opened Buffers
  import opened ByteOrder
  import opened Crc32
  import opened Ddf1Fields
  import opened Ddf1Tables
  import opened Ddf1Records
  import opened Ddf1Cvt
  import opened Ddf1Image
  import opened Ddf1Crc
  import Ddf1Write
  import opened Optional

  // x = le##_to_cpu(x) for one field of a buffer.
  method ConvertField(a: array<byte>, f: Field, big: bool)
    requires Usable(f, a.Length)
    modifies a
    ensures a[..] == CvtField(old(a[..]), f)
  {
    hide Swapped, Store, Load, Swap;
    var p := a[f.off..f.off + f.size];
    assert p == Part(a[..], f.off, f.size);
    ConvertedIsSwapped(p, f.width, big);
    Overwrite(a, f.off, Store(Swap(Load(p, big), f.width), f.size, big));
  }

  // The CVT lines of one structure, which lies at base.
  method ConvertFields(a: array<byte>, base: nat, fs: seq<Field>, big: bool)
    requires AllUsable(Shift(fs, base), a.Length)
    modifies a
    ensures a[..] == CvtFields(old(a[..]), Shift(fs, base))
  {
    hide CvtField;
    ghost var all := Shift(fs, base);
    var i := 0;
    assert all[0..] == all;
    while i < |fs|
      invariant 0 <= i <= |fs|
      invariant CvtFields(a[..], all[i..]) == CvtFields(old(a[..]), all)
    {
      assert all[i] in all;
      assert all[i..][1..] == all[i + 1..];
      ConvertField(a, fs[i].(off := base + fs[i].off), big);
      i := i + 1;
    }
  }

  lemma ShiftByZero(fs: seq<Field>)
    ensures Shift(fs, 0) == fs
  {
  }

  // ddf1_cvt_header, ddf1_cvt_adapter and ddf1_cvt_disk_data
  method ConvertWhole(a: array<byte>, fs: seq<Field>, big: bool)
    requires AllUsable(fs, a.Length)
    modifies a
    ensures a[..] == CvtFields(old(a[..]), fs)
  {
    ShiftByZero(fs);
    ConvertFields(a, 0, fs, big);
  }

  function EntryFields(l: Layout, i: nat): seq<Field> {
    match l
    case PhysDrives => Shift(PHYS_DRIVE, 64 + 64 * i)
    case VirtDrives => Shift(VIRT_DRIVE, 64 + 64 * i)
    case Spares => Shift(SPARE, 32 + 32 * i)
    case Config(cap) => [IdField(i), OffField(cap, i)]
  }

  lemma NextEntry(l: Layout, i: nat)
    ensures Entries(l, i + 1) == Entries(l, i) + EntryFields(l, i)
    ensures AllUsable(EntryFields(l, i), Extent(l, i + 1))
  {
    EntriesUsable(l, i + 1, Extent(l, i + 1));
    assert forall f :: f in EntryFields(l, i) ==> f in Entries(l, i + 1);
  }

  lemma OneMoreEntry(l: Layout, i: nat, s: seq<byte>)
    requires Extent(l, i + 1) <= |s|
    ensures AllUsable(EntryFields(l, i), |s|)
    ensures CvtEntries(l, i + 1, s) == CvtFields(CvtEntries(l, i, s), EntryFields(l, i))
  {
    hide Entries, EntryFields, CvtFields;
    NextEntry(l, i);
    EntriesUsable(l, i, |s|);
    EntriesUsable(l, i + 1, |s|);
    CvtFieldsConcat(s, Entries(l, i), EntryFields(l, i));
  }

  lemma NoEntries(l: Layout, s: seq<byte>)
    requires Extent(l, 0) <= |s|
    ensures CvtEntries(l, 0, s) == s
  {
  }

  lemma InPlace(s: seq<byte>, base: nat, size: nat, fs: seq<Field>)
    requires base + size <= |s| && AllUsable(fs, size)
    ensures AllUsable(Shift(fs, base), |s|)
    ensures CvtFields(s, Shift(fs, base)) == Splice(s, base, CvtFields(Part(s, base, size), fs))
  {
    CvtFieldsShifted(s, fs, base, size);
  }

  lemma ExtentGrows(l: Layout, i: nat, n: nat)
    requires i <= n
    ensures FixedSize(l) <= Extent(l, i) <= Extent(l, n)
  {
  }

  // num_drives and its like, read where they lie.
  method ReadCount(a: array<byte>, base: nat, size: nat, l: Layout, big: bool) returns (n: nat)
    requires base + size <= a.Length && FixedSize(l) <= size
    ensures n == CountIn(l, Part(a[..], base, size), big)
  {
    hide Load, FixedPart;
    FixedPlaced(l);
    var at := base + CountAt(l);
    n := Load(a[at..at + 2], big);
    assert a[at..at + 2] == Part(a[..], at, 2);
    PartOfPart(a[..], base, size, CountAt(l), 2);
  }

  // The fixed part of a structure.
  method ConvertFixed(a: array<byte>, base: nat, size: nat, l: Layout, big: bool)
    requires base + size <= a.Length && FixedSize(l) <= size
    modifies a
    ensures a[..] == Splice(old(a[..]), base, CvtFixed(l, Part(old(a[..]), base, size)))
  {
    hide CvtFields, Splice, FixedPart;
    FixedUsable(l, size);
    InPlace(a[..], base, size, FixedPart(l));
    ConvertFields(a, base, FixedPart(l), big);
  }

  // The loop over the entries.
  method ConvertEntries(a: array<byte>, base: nat, size: nat, l: Layout, n: nat, big: bool)
    requires base + size <= a.Length && Extent(l, n) <= size
    modifies a
    ensures a[..] == Splice(old(a[..]), base, CvtEntries(l, n, Part(old(a[..]), base, size)))
  {
    hide CvtFields, Splice, Entries, EntryFields, Extent, CvtEntries;
    ghost var s := a[..];
    ghost var rec := Part(s, base, size);
    ExtentGrows(l, 0, n);
    NoEntries(l, rec);
    SplicePart(s, base, size);
    var i := 0;
    while i < n
      invariant 0 <= i <= n
      invariant Extent(l, i) <= size
      invariant a[..] == Splice(s, base, CvtEntries(l, i, rec))
    {
      ghost var e := CvtEntries(l, i, rec);
      ExtentGrows(l, i + 1, n);
      OneMoreEntry(l, i, rec);
      InPlace(a[..], base, size, EntryFields(l, i));
      PartOfSplice(s, base, e);
      ConvertFields(a, base, EntryFields(l, i), big);
      SpliceTwice(s, base, e, CvtFields(e, EntryFields(l, i)));
      i := i + 1;
    }
  }

  /** A structure with counted entries, of size bytes at base: the drive tables,
      and with base at a record the VD and spare records.
   */
  method ConvertTable(a: array<byte>, base: nat, size: nat, l: Layout, cpu: bool, big: bool)
    requires base + size <= a.Length
    requires Fits(l, Part(a[..], base, size), cpu, big)
    modifies a
    ensures a[..] == Splice(old(a[..]), base, CvtTable(l, Part(old(a[..]), base, size), cpu, big))
  {
    hide CvtFixed, CvtEntries, Splice, CountIn, Extent;
    ghost var s := a[..];
    ghost var rec := Part(s, base, size);
    var n := 0;
    if cpu {
      n := ReadCount(a, base, size, l, big);
    }
    ConvertFixed(a, base, size, l, big);
    PartOfSplice(s, base, CvtFixed(l, rec));
    if !cpu {
      n := ReadCount(a, base, size, l, big);
    }
    ConvertEntries(a, base, size, l, n, big);
    SpliceTwice(s, base, CvtFixed(l, rec), CvtEntries(l, n, CvtFixed(l, rec)));
  }

  // A record of the walk: the switch and the converter it selects.
  method ConvertRecord(a: array<byte>, base: nat, size: nat, cap: nat, cpu: bool, big: bool)
    requires base + size <= a.Length
    requires RecordFits(Part(a[..], base, size), cap, cpu, big)
    modifies a
    ensures a[..] == Splice(old(a[..]), base, CvtRecord(Part(old(a[..]), base, size), cap, cpu, big))
  {
    hide CvtTable, Splice, KindOfSignature, Fits;
    ghost var rec := Part(a[..], base, size);
    var k := ReadKind(a, base, size, !cpu, big);
    SplicePart(a[..], base, size);
    if !k.Other? {
      ConvertTable(a, base, size, LayoutOf(k, cap), cpu, big);
    }
  }

  method ReadKind(a: array<byte>, base: nat, size: nat, swap: bool, big: bool) returns (k: Kind)
    requires base + size <= a.Length && size >= 4
    ensures k == KindOf(Part(a[..], base, size), swap, big)
  {
    hide Load, KindOfSignature, Le32ToCpu;
    var x := Load(a[base..base + 4], big);
    assert a[base..base + 4] == Part(a[..], base + 0, 4);
    PartOfPart(a[..], base, size, 0, 4);
    k := KindOfSignature(if swap then Le32ToCpu(x) else x);
  }

  lemma OneMoreDone<T>(done: seq<T>, todo: seq<T>, i: nat)
    requires i < |done| == |todo|
    ensures (done[..i] + todo[i..])[i] == todo[i]
    ensures (done[..i] + todo[i..])[i := done[i]] == done[..i + 1] + todo[i + 1..]
  {
  }

  // ddf1_cvt_records
  method ConvertArea(a: array<byte>, sh: Shape, cpu: bool, big: bool)
    requires AreaFits(a[..], sh, cpu, big)
    modifies a
    ensures a[..] == CvtArea(old(a[..]), sh, cpu, big)
  {
    hide RecordFits, CvtRecord, Splice, Assemble, RecordsOf, CvtEach, Sized;
    ghost var cfg := a[..];
    ghost var recs := RecordsOf(cfg, sh.size, sh.count);
    ghost var done := CvtEach(recs, sh.cap, cpu, big);
    var i := 0;
    while i < sh.count
      invariant 0 <= i <= sh.count
      invariant RecordsOf(a[..], sh.size, sh.count) == done[..i] + recs[i..]
      invariant a[sh.count * sh.size..] == cfg[sh.count * sh.size..]
    {
      RecordAt(a[..], sh.size, sh.count, i);
      RecordReplaced(a[..], sh.size, sh.count, i, done[i]);
      ConvertRecord(a, i * sh.size, sh.size, sh.cap, cpu, big);
      OneMoreDone(done, recs, i);
      i := i + 1;
    }
    assert done[..sh.count] + recs[sh.count..] == done;
    AssembledRecords(a[..], sh.size, sh.count);
  }

  lemma RecordAt(cfg: seq<byte>, size: nat, n: nat, i: nat)
    requires n * size <= |cfg| && i < n
    ensures i * size + size <= |cfg| && Part(cfg, i * size, size) == RecordsOf(cfg, size, n)[i]
  {
    RecordBounds(i, n, size);
  }

  // Overwriting inside a table is overwriting the table in the buffer.
  lemma OverwriteInTable(all: seq<byte>, base: nat, len: nat, t: seq<byte>)
    requires base + len <= |all| && 4 + |t| <= len
    ensures Splice(all, base + 4, t) == Splice(all, base, Splice(Part(all, base, len), 4, t))
    ensures Part(Splice(all, base + 4, t), base, len) == Splice(Part(all, base, len), 4, t)
  {
    PartOfSplice(all, base, Splice(Part(all, base, len), 4, t));
  }

  lemma PrefixOfTable(all: seq<byte>, base: nat, len: nat, size: nat)
    requires base + len <= |all| && size <= len
    ensures all[base..base + size] == Part(all, base, len)[..size]
  {
  }

  // do_crc32 on the table of len bytes at base: the crc field is overwritten
  // while the CRC is computed, and restored.
  method DoCrc32(a: array<byte>, base: nat, len: nat, size: nat, t: CrcTable) returns (r: Word)
    requires 8 <= len && base + len <= a.Length && size <= len && t.Valid()
    modifies a, t, t.table
    ensures a[..] == old(a[..]) && t.Valid()
    ensures r == TableCrc(Part(a[..], base, len), size)
  {
    hide Splice, BitSerialCrc;
    ghost var all := a[..];
    var saved := a[base + 4..base + 8];
    assert saved == Part(all, base + 4, 4);
    Overwrite(a, base + 4, UNSET);
    OverwriteInTable(all, base, len, UNSET);
    PrefixOfTable(a[..], base, len, size);
    r := t.Crc(ALL_ONES, a, base, size);
    ghost var masked := a[..];
    Overwrite(a, base + 4, saved);
    SpliceTwice(all, base + 4, UNSET, saved);
    SplicePart(all, base + 4, 4);
  }

  // One table of the update walk.
  method UpdateCrc(a: array<byte>, base: nat, len: nat, size: nat, t: CrcTable, big: bool)
    requires 8 <= len && base + len <= a.Length && size <= len && t.Valid()
    modifies a, t, t.table
    ensures t.Valid()
    ensures a[..] == Splice(old(a[..]), base, Stamp(Part(old(a[..]), base, len), size, big))
  {
    hide Splice, TableCrc, Store;
    var crc := DoCrc32(a, base, len, size, t);
    var c := Store(FromBits(crc), 4, big);
    OverwriteInTable(a[..], base, len, c);
    Overwrite(a, base + 4, c);
  }

  // check_crc
  method CheckCrc(a: array<byte>, base: nat, len: nat, size: nat, t: CrcTable, big: bool) returns (ok: bool)
    requires 8 <= len && base + len <= a.Length && size <= len && t.Valid()
    modifies a, t, t.table
    ensures a[..] == old(a[..]) && t.Valid()
    ensures ok == Matches(Part(a[..], base, len), size, big)
  {
    hide TableCrc, Load;
    var crc := DoCrc32(a, base, len, size, t);
    assert a[base + 4..base + 8] == Part(a[..], base + 4, 4);
    PartOfPart(a[..], base, len, 4, 4);
    ok := Load(a[base + 4..base + 8], big) == FromBits(crc);
  }

  // crc32_vd and crc32_spare behind the switch.
  method UpdateRecord(a: array<byte>, base: nat, size: nat, t: CrcTable, foreign: bool, big: bool)
    requires 8 <= size && base + size <= a.Length && t.Valid()
    modifies a, t, t.table
    ensures t.Valid()
    ensures a[..] == Splice(old(a[..]), base, StampRecord(Part(old(a[..]), base, size), foreign, big))
  {
    hide Splice, KindOf, Stamp;
    SplicePart(a[..], base, size);
    var k := ReadKind(a, base, size, foreign, big);
    if !k.Other? {
      UpdateCrc(a, base, size, size, t, big);
    }
  }

  // update_cfg_crc
  method UpdateArea(a: array<byte>, sh: Shape, t: CrcTable, foreign: bool, big: bool)
    requires 8 <= sh.size && sh.count * sh.size <= a.Length && t.Valid()
    modifies a, t, t.table
    ensures t.Valid()
    ensures a[..] == StampArea(old(a[..]), sh, foreign, big)
  {
    hide Splice, Assemble, RecordsOf, StampRecord, StampEach;
    ghost var cfg := a[..];
    ghost var recs := RecordsOf(cfg, sh.size, sh.count);
    ghost var done := StampEach(recs, foreign, big);
    var i := 0;
    while i < sh.count
      invariant 0 <= i <= sh.count
      invariant t.Valid()
      invariant RecordsOf(a[..], sh.size, sh.count) == done[..i] + recs[i..]
      invariant a[sh.count * sh.size..] == cfg[sh.count * sh.size..]
    {
      RecordAt(a[..], sh.size, sh.count, i);
      RecordReplaced(a[..], sh.size, sh.count, i, done[i]);
      UpdateRecord(a, i * sh.size, sh.size, t, foreign, big);
      OneMoreDone(done, recs, i);
      i := i + 1;
    }
    assert done[..sh.count] + recs[sh.count..] == done;
    AssembledRecords(a[..], sh.size, sh.count);
  }

  // check_cfg_crc
  method CheckArea(a: array<byte>, sh: Shape, t: CrcTable, foreign: bool, big: bool) returns (log: seq<Label>)
    requires 8 <= sh.size && sh.count * sh.size <= a.Length && t.Valid()
    modifies a, t, t.table
    ensures a[..] == old(a[..]) && t.Valid()
    ensures log == ReportRecords(RecordsOf(a[..], sh.size, sh.count), sh.count, foreign, big)
  {
    hide RecordsOf, KindOf, Matches;
    ghost var recs := RecordsOf(a[..], sh.size, sh.count);
    log := [];
    var i := 0;
    while i < sh.count
      invariant 0 <= i <= sh.count
      invariant a[..] == old(a[..]) && t.Valid()
      invariant log == ReportRecords(recs, i, foreign, big)
    {
      RecordAt(a[..], sh.size, sh.count, i);
      var k := ReadKind(a, i * sh.size, sh.size, foreign, big);
      if !k.Other? {
        var ok := CheckCrc(a, i * sh.size, sh.size, sh.size, t, big);
        log := log + Report(ok, ConfigRecord(i));
      }
      i := i + 1;
    }
  }

  // Whole tables.
  method ConvertHeader(a: array<byte>, big: bool)
    requires a.Length == HEADER_SIZE
    modifies a
    ensures a[..] == CvtHeader(old(a[..]))
  {
    hide CvtFields;
    HeaderPlaced();
    ConvertWhole(a, Fields(HEADER), big);
  }

  method ConvertAdapter(a: array<byte>, big: bool)
    requires a.Length >= 40
    modifies a
    ensures a[..] == CvtAdapter(old(a[..]))
  {
    hide CvtFields;
    AdapterPlaced();
    ConvertWhole(a, Fields(ADAPTER), big);
  }

  method ConvertDiskData(a: array<byte>, big: bool)
    requires a.Length >= 36
    modifies a
    ensures a[..] == CvtDiskData(old(a[..]))
  {
    hide CvtFields;
    ConvertWhole(a, Fields(DISK_DATA), big);
  }

  method ConvertDrives(a: array<byte>, l: Layout, cpu: bool, big: bool)
    requires Fits(l, a[..], cpu, big)
    modifies a
    ensures a[..] == CvtTable(l, old(a[..]), cpu, big)
  {
    hide CvtTable, Fits;
    assert Part(a[..], 0, a.Length) == a[..];
    ConvertTable(a, 0, a.Length, l, cpu, big);
  }

  method StampTable(a: array<byte>, size: nat, t: CrcTable, big: bool)
    requires Holds(a[..], size) && t.Valid()
    modifies a, t, t.table
    ensures t.Valid() && a[..] == Stamp(old(a[..]), size, big)
  {
    hide Stamp;
    assert Part(a[..], 0, a.Length) == a[..];
    UpdateCrc(a, 0, a.Length, size, t, big);
  }

  method CheckTable(a: array<byte>, size: nat, t: CrcTable, big: bool, what: Label) returns (log: seq<Label>)
    requires Holds(a[..], size) && t.Valid()
    modifies a, t, t.table
    ensures t.Valid() && a[..] == old(a[..])
    ensures log == Report(Matches(a[..], size, big), what)
  {
    hide Matches;
    assert Part(a[..], 0, a.Length) == a[..];
    var ok := CheckCrc(a, 0, a.Length, size, t, big);
    log := Report(ok, what);
  }

  /** struct ddf1. big and foreign are the host's byte order and whether the
      disk's differs from it.
   */
  class Disk {
    const big: bool
    const foreign: bool
    const crcs: CrcTable
    const anchor: array<byte>
    const primary: array<byte>
    const secondary: array?<byte>
    const adapter: array?<byte>
    const diskData: array<byte>
    const physDrives: array<byte>
    const virtDrives: array<byte>
    const config: array<byte>
    var inCpu: bool

    // The tables are allocated one by one.
    ghost predicate Apart() {
      && anchor !in {primary, diskData, physDrives, virtDrives, config, secondary, adapter}
      && primary !in {diskData, physDrives, virtDrives, config, secondary, adapter}
      && diskData !in {physDrives, virtDrives, config, secondary, adapter}
      && physDrives !in {virtDrives, config, secondary, adapter}
      && virtDrives !in {config, secondary, adapter}
      && config !in {secondary, adapter}
      && (secondary == null || secondary != adapter)
    }

    ghost function Buffers(): set<object> {
      {anchor, primary, diskData, physDrives, virtDrives, config}
      + (if secondary == null then {} else {secondary}) + (if adapter == null then {} else {adapter})
    }

    ghost function Contents(): (img: Image)
      reads this, Buffers()
      ensures img.inCpu == inCpu
    {
      Image(
        inCpu, anchor[..], primary[..],
        if secondary == null then None else Some(secondary[..]),
        if adapter == null then None else Some(adapter[..]),
        diskData[..], physDrives[..], virtDrives[..], config[..])
    }

    constructor (big: bool, foreign: bool, anchor: array<byte>, primary: array<byte>, secondary: array?<byte>,
                 adapter: array?<byte>, diskData: array<byte>, physDrives: array<byte>,
                 virtDrives: array<byte>, config: array<byte>)
      ensures this.big == big && this.foreign == foreign && !inCpu
      ensures this.anchor == anchor && this.primary == primary && this.secondary == secondary
      ensures this.adapter == adapter && this.diskData == diskData && this.physDrives == physDrives
      ensures this.virtDrives == virtDrives && this.config == config
      ensures crcs.Valid() && fresh(crcs) && fresh(crcs.table)
    {
      this.big, this.foreign, this.inCpu := big, foreign, false;
      this.anchor, this.primary, this.secondary, this.adapter := anchor, primary, secondary, adapter;
      this.diskData, this.physDrives, this.virtDrives, this.config := diskData, physDrives, virtDrives, config;
      crcs := new CrcTable();
    }

    // ddf1_cvt_all: the records are converted while the primary header is in CPU format.
    method ConvertAll()
      requires Apart() && (foreign ==> WellSized(Contents(), big))
      modifies this, Buffers()
      ensures Contents() == CvtAll(old(Contents()), foreign, big)
    {
      hide CvtHeader, CvtAdapter, CvtDiskData, CvtTable, CvtArea, Fits, AreaFits, ShapeOf, Load;
      if foreign {
        ghost var img := Contents();
        HeaderTwice(img.primary);
        ConvertHeader(anchor, big);
        if inCpu {
          ConvertArea(config, ShapeOf(primary[..], big), inCpu, big);
        }
        ConvertHeader(primary, big);
        if !inCpu {
          ConvertArea(config, ShapeOf(primary[..], big), inCpu, big);
        }
        if secondary != null {
          ConvertHeader(secondary, big);
        }
        if adapter != null {
          ConvertAdapter(adapter, big);
        }
        ConvertDiskData(diskData, big);
        ConvertDrives(physDrives, PhysDrives, inCpu, big);
        ConvertDrives(virtDrives, VirtDrives, inCpu, big);
      }
      inCpu := !inCpu;
    }

    // ddf1_update_all_crcs: from the last table to the first, then the records.
    method UpdateAllCrcs()
      requires Apart() && crcs.Valid() && CrcSized(Contents(), big)
      modifies Buffers(), crcs, crcs.table
      ensures crcs.Valid() && Contents() == UpdateAll(old(Contents()), foreign, big)
    {
      hide Stamp, StampArea, ShapeOf, TableSize, Load;
      StampedPrimary(primary[..], big);
      StampTable(virtDrives, TableSize(primary[..], VIRT_DRIVE_LEN, big), crcs, big);
      StampTable(physDrives, TableSize(primary[..], PHYS_DRIVE_LEN, big), crcs, big);
      StampTable(diskData, TableSize(primary[..], DISK_DATA_LEN, big), crcs, big);
      if adapter != null {
        StampTable(adapter, TableSize(primary[..], ADAPTER_DATA_LEN, big), crcs, big);
      }
      if secondary != null {
        StampTable(secondary, HEADER_SIZE, crcs, big);
      }
      StampTable(primary, HEADER_SIZE, crcs, big);
      UpdateArea(config, ShapeOf(primary[..], big), crcs, foreign, big);
    }

    // ddf1_check_all_crcs: what is logged.
    method CheckAllCrcs() returns (log: seq<Label>)
      requires Apart() && crcs.Valid() && CrcSized(Contents(), big)
      modifies Buffers(), crcs, crcs.table
      ensures crcs.Valid() && Contents() == old(Contents())
      ensures log == Mismatches(Contents(), foreign, big)
    {
      hide Matches, RecordsOf, ReportRecords, ShapeOf, TableSize, Load, Report;
      ghost var img := Contents();
      NoReport(AdapterData);
      NoReport(Secondary);
      var l1 := CheckTable(virtDrives, TableSize(primary[..], VIRT_DRIVE_LEN, big), crcs, big, VirtualDrives);
      var l2 := CheckTable(physDrives, TableSize(primary[..], PHYS_DRIVE_LEN, big), crcs, big, PhysicalDrives);
      var l3 := CheckTable(diskData, TableSize(primary[..], DISK_DATA_LEN, big), crcs, big, DiskData);
      var l4, l5 := [], [];
      if adapter != null {
        l4 := CheckTable(adapter, TableSize(primary[..], ADAPTER_DATA_LEN, big), crcs, big, AdapterData);
      }
      if secondary != null {
        l5 := CheckTable(secondary, HEADER_SIZE, crcs, big, Secondary);
      }
      var l6 := CheckTable(primary, HEADER_SIZE, crcs, big, Primary);
      var l7 := CheckArea(config, ShapeOf(primary[..], big), crcs, foreign, big);
      assert Contents() == img;
      log := l1 + l2 + l3 + l4 + l5 + l6 + l7;
    }

    // ddf1_write around the write itself, and the image that is written. In adaptec mode
    // the CRCs are updated first.
    method Write(adaptec: bool) returns (ghost written: Image)
      requires Apart() && crcs.Valid() && (foreign ==> WellSized(Contents(), big))
      requires adaptec ==> CrcSized(Contents(), big) && (foreign ==> inCpu)
      modifies this, Buffers(), crcs, crcs.table
      ensures crcs.Valid()
      ensures var img := if adaptec then UpdateAll(old(Contents()), foreign, big) else old(Contents());
        && (foreign ==> WellSized(img, big))
        && written == CvtAll(img, foreign, big)
        && (Contents() == img <==> (foreign ==> Reversible(old(Contents()), big)))
    {
      hide CvtAll, UpdateAll, WellSized, CrcSized, Reversible, Contents;
      if adaptec {
        if foreign {
          Ddf1Write.UpdateStays(Contents(), foreign, big);
        }
        UpdateAllCrcs();
      }
      ghost var img := Contents();
      CvtAllTwice(img, foreign, big);
      ConvertAll();
      written := Contents();
      ConvertAll();
    }
  }

  lemma NoReport(what: Label)
    ensures Report(true, what) == []
  {
  }
}
