/** The edits of an Intel Software RAID image, lib/format/ataraid/isw.c, as
    functions on its pieces: creating the first and the second volume, starting
    and ending a rebuild, and removing a volume.
 */
module IswEdits {
  import Bits
  import opened ByteOrder
  import opened Buffers
  import opened IswLayout
  import opened IswChecksum

  const FAMILY_NUM := 40
  const ATTRIBUTES := 52
  const ORIG_FAMILY_NUM := 64
  const BBM_LOG_SIZE := 72
  const VERSION := 24
  const VERSION_LENGTH := 6
  const MPB_ATTRIB_CHECKSUM_VERIFY := 0x8000_0000
  const DISK_SCSI_ID := 20
  const DISK_STATUS := 24
  const UNKNOWN_SCSI_ID := 0xFFFF_FFFF
  const CONFIGURED_DISK := 0x02
  const ISW_DEV_NONE_FAILED := 255
  const ISW_T_RAID0 := 0
  const ISW_T_RAID1 := 1

  // At most two volumes, and disks that fit the one byte that counts them.
  predicate Parts(h: Octets, disks: seq<Octets>, devs: seq<Dev>) {
    |h| == IswLayout.HEADER_SIZE && DisksOk(disks) && DevsOk(devs) && |disks| < 256 && |devs| <= 2
  }

  function Size(disks: seq<Octets>, devs: seq<Dev>): nat
    requires DisksOk(disks) && DevsOk(devs)
  {
    IswLayout.HEADER_SIZE + DISK_SIZE * |disks| + |EncodeDevs(devs)|
  }

  function Put(h: Octets, off: nat, v: nat, n: nat): (r: Octets)
    requires off + n <= |h|
    ensures |r| == |h|
  {
    Splice(h, off, Bytes(v, n))
  }

  // num_disks, num_raid_devs and mpb_size brought up to date.
  function Counted(h: Octets, disks: seq<Octets>, devs: seq<Dev>): (r: Octets)
    requires Parts(h, disks, devs)
    ensures |r| == |h|
  {
    Put(h[NUM_DISKS := |disks|][NUM_RAID_DEVS := |devs|], MPB_SIZE, Size(disks, devs), 4)
  }

  lemma OkSize(x: Isw)
    requires Ok(x)
    ensures |Encode(x)| >= IswLayout.HEADER_SIZE && MpbSize(Encode(x)) == |Encode(x)|
  {
    hide Number, EncodeDevs, EncodeDisks;
    assert Part(Encode(x), MPB_SIZE, 4) == Part(x.header, MPB_SIZE, 4);
  }

  function ChecksumOf(x: Isw): nat
    requires Ok(x)
  {
    OkSize(x);
    Checksum(Encode(x))
  }

  // An image of these pieces with the checksum that belongs to them.
  function Seal(x: Isw): (r: Isw)
    requires Ok(x)
    ensures r.disks == x.disks && r.devs == x.devs && |r.header| == |x.header|
  {
    x.(header := Put(x.header, CHECK_SUM, ChecksumOf(x), 4))
  }

  lemma DevsLength(devs: seq<Dev>)
    requires DevsOk(devs) && |devs| <= 2
    ensures |EncodeDevs(devs)| <= 4496 && |EncodeDevs(devs)| % 4 == 0
  {
    if |devs| >= 1 {
      if |devs| == 2 {
        assert devs == [devs[0]] + [devs[1]];
        EncodeDevsConcat([devs[0]], [devs[1]]);
        OneDev(devs[1]);
      } else {
        assert devs == [devs[0]];
      }
      OneDev(devs[0]);
    }
  }

  lemma NumberOfU32(v: nat)
    requires v < B4
    ensures Number(Bytes(v, 4)) == v
  {
    PowerOf32();
    NumberOfBytes(v, 4);
  }

  lemma CountedOk(h: Octets, disks: seq<Octets>, devs: seq<Dev>)
    requires Parts(h, disks, devs)
    ensures Ok(Isw(Counted(h, disks, devs), disks, devs))
  {
    hide Number, EncodeDevs, EncodeDisks;
    DevsLength(devs);
    NumberOfU32(Size(disks, devs));
    PartOfSplice(h[NUM_DISKS := |disks|][NUM_RAID_DEVS := |devs|], MPB_SIZE, Bytes(Size(disks, devs), 4));
  }

  function Image(h: Octets, disks: seq<Octets>, devs: seq<Dev>): (r: Isw)
    requires Parts(h, disks, devs)
    ensures r.disks == disks && r.devs == devs && |r.header| == |h|
  {
    CountedOk(h, disks, devs);
    Seal(Isw(Counted(h, disks, devs), disks, devs))
  }

  /** What every image on a disk must be: its length field is where the walk over
      its volumes ends (WalkEndsAtMpbSize), and the reader accepts its checksum.
   */
  predicate Good(x: Isw) {
    && Ok(x) && |x.disks| < 256 && |x.devs| <= 2
    && (OkSize(x); Accepted(Encode(x)))
  }

  lemma OkOfGood(x: Isw)
    requires Good(x)
    ensures Ok(x)
  {
  }

  lemma SealIsSealed(x: Isw)
    requires Ok(x)
    ensures Shaped(Seal(x)) && (OkSize(x); Encode(Seal(x)) == Sealed(Encode(x)))
  {
    hide EncodeDevs, EncodeDisks, Number, Checksum, Bytes;
    OkSize(x);
    var c := Bytes(Checksum(Encode(x)), 4);
    assert Splice(x.header, CHECK_SUM, c) + EncodeDisks(x.disks) + EncodeDevs(x.devs)
        == Splice(x.header + EncodeDisks(x.disks) + EncodeDevs(x.devs), CHECK_SUM, c);
  }

  lemma ImageIsGood(h: Octets, disks: seq<Octets>, devs: seq<Dev>)
    requires Parts(h, disks, devs)
    ensures Good(Image(h, disks, devs))
  {
    hide EncodeDevs, EncodeDisks, Counted, Checksum;
    CountedOk(h, disks, devs);
    var x := Isw(Counted(h, disks, devs), disks, devs);
    SealIsSealed(x);
    OkSize(x);
    SealedIsAccepted(Encode(x));
    assert Part(Seal(x).header, MPB_SIZE, 4) == Part(x.header, MPB_SIZE, 4);
  }

  function NextGeneration(h: Octets): (r: Octets)
    requires |h| == IswLayout.HEADER_SIZE
    ensures |r| == |h|
  {
    Put(h, GENERATION_NUM, Number(Part(h, GENERATION_NUM, 4)) + 1, 4)
  }

  function Generation(x: Isw): nat
    requires |x.header| == IswLayout.HEADER_SIZE
  {
    Number(Part(x.header, GENERATION_NUM, 4))
  }

  // ------------------------------------------------------------- rebuilding

  // disk_ord_tbl[i] = i for every disk of the old table, in a map of m members
  function OrderTable(m: nat, disks: nat): (r: Octets)
    ensures |r| == 4 * m
  {
    if m == 0 then [] else OrderTable(m - 1, disks) + Bytes(if m <= disks then m - 1 else 0, 4)
  }

  function NewMap(source: Octets, failed: Bits.byte, disks: nat): (r: Octets)
    requires |source| >= MAP_FIXED
    ensures |r| == MapSize(source[NUM_MEMBERS]) && r[NUM_MEMBERS] == source[NUM_MEMBERS]
  {
    source[..MAP_FIXED][MAP_STATE := 0][FAILED_DISK_NUM := failed] + OrderTable(source[NUM_MEMBERS], disks)
  }

  // update_metadata_isw_dev: two equal maps, the volume marked as rebuilding.
  function StartDev(d: Dev, failed: Bits.byte, disks: nat): (r: Dev)
    requires DevOk(d)
    ensures DevOk(r) && Members(r) == Members(d)
  {
    var map0 := NewMap(d.maps[0], failed, disks);
    Dev(d.head[MIGR_STATE := 1][MIGR_TYPE := 1], [map0, map0])
  }

  // The failed disk's entry, marked and moved to the end of the table.
  function FailedEntry(disk: Octets): (r: Octets)
    requires |disk| == DISK_SIZE
    ensures |r| == DISK_SIZE
  {
    Put(Put(disk, DISK_SCSI_ID, UNKNOWN_SCSI_ID, 4), DISK_STATUS, CONFIGURED_DISK, 4)
  }

  function StartDevs(devs: seq<Dev>, failed: Bits.byte, disks: nat): (r: seq<Dev>)
    requires DevsOk(devs)
    ensures DevsOk(r) && |r| == |devs|
  {
    seq(|devs|, i requires 0 <= i < |devs| => StartDev(devs[i], failed, disks))
  }

  predicate CanStart(x: Isw, failed: nat) {
    Good(x) && failed < |x.disks| < 255 && |x.devs| >= 1
  }

  // update_metadata
  function StartRebuild(x: Isw, failed: nat, newDisk: Octets): Isw
    requires CanStart(x, failed) && |newDisk| == DISK_SIZE
  {
    Image(NextGeneration(x.header), x.disks[failed := newDisk] + [FailedEntry(x.disks[failed])],
          StartDevs(x.devs, failed, |x.disks|))
  }

  function EndDev(d: Dev): (r: Dev)
    requires DevOk(d)
    ensures DevOk(r)
  {
    Dev(d.head[MIGR_STATE := 0][MIGR_TYPE := 0], [d.maps[0][FAILED_DISK_NUM := ISW_DEV_NONE_FAILED]])
  }

  // The test on the migration types, after the finished volume has been marked.
  function DropsDisk(devs: seq<Dev>): bool
    requires DevsOk(devs) && 1 <= |devs| <= 2
  {
    if devs[0].head[MIGR_TYPE] == 0 && |devs| == 2 then devs[1].head[MIGR_TYPE] == 0 else true
  }

  // The volume is being rebuilt.
  predicate CanEnd(x: Isw, v: nat) {
    Good(x) && v < |x.devs| && |x.disks| >= 1 && |x.devs[v].maps| == 2
  }

  // All volumes are on the same number of drives.
  predicate SameMembers(devs: seq<Dev>)
    requires DevsOk(devs)
  {
    forall i, j :: 0 <= i < |devs| && 0 <= j < |devs| ==> Members(devs[i]) == Members(devs[j])
  }

  // update_metadata_after_rebuild
  function EndRebuild(x: Isw, v: nat): Isw
    requires CanEnd(x, v)
  {
    var devs := x.devs[v := EndDev(x.devs[v])];
    var disks := if DropsDisk(devs) then x.disks[..|x.disks| - 1] else x.disks;
    Image(NextGeneration(x.header), disks, devs)
  }

  // --------------------------------------------------- creating and removing

  function SetVersion(h: Octets, version: Octets): (r: Octets)
    requires |h| == IswLayout.HEADER_SIZE && |version| == VERSION_LENGTH
    ensures |r| == |h|
  {
    Splice(h, VERSION, version)
  }

  const VERSION_RAID0: Octets := [0x31, 0x2E, 0x30, 0x2E, 0x30, 0x30]  // "1.0.00"
  const VERSION_RAID1: Octets := [0x31, 0x2E, 0x31, 0x2E, 0x30, 0x30]  // "1.1.00"

  // A lower version where the remaining volume allows it.
  function Downgraded(h: Octets, d: Dev): (r: Octets)
    requires |h| == IswLayout.HEADER_SIZE && DevOk(d)
    ensures |r| == |h|
  {
    if d.maps[0][RAID_LEVEL] == ISW_T_RAID1 then SetVersion(h, VERSION_RAID1)
    else if d.maps[0][RAID_LEVEL] == ISW_T_RAID0 && Members(d) < 3 then SetVersion(h, VERSION_RAID0)
    else h
  }

  // isw_remove_dev with the volume that remains.
  function RemoveVolume(x: Isw, keep: nat): Isw
    requires Good(x) && |x.devs| == 2 && keep < 2
  {
    Image(Downgraded(x.header, x.devs[keep]), x.disks, [x.devs[keep]])
  }

  // strcmp on version strings
  predicate Less(a: Octets, b: Octets) {
    if a == [] || b == [] then |a| < |b|
    else a[0] < b[0] || (a[0] == b[0] && Less(a[1..], b[1..]))
  }

  // _isw_create_second_volume with the volume that isw_config_dev wrote.
  function CreateSecond(x: Isw, d: Dev, version: Octets): Isw
    requires Good(x) && |x.devs| == 1 && DevOk(d) && |version| == VERSION_LENGTH
  {
    var h := if Less(Part(x.header, VERSION, VERSION_LENGTH), version) then SetVersion(x.header, version) else x.header;
    Image(Put(Put(NextGeneration(h), ATTRIBUTES, MPB_ATTRIB_CHECKSUM_VERIFY, 4), BBM_LOG_SIZE, 0, 4),
          x.disks, x.devs + [d])
  }

  const SIGNATURE: Octets := [
    0x49, 0x6E, 0x74, 0x65, 0x6C, 0x20, 0x52, 0x61, 0x69, 0x64, 0x20, 0x49,
    0x53, 0x4D, 0x20, 0x43, 0x66, 0x67, 0x20, 0x53, 0x69, 0x67, 0x2E, 0x20]  // "Intel Raid ISM Cfg Sig. "

  function NullHeader(): (h: Octets)
    ensures |h| == IswLayout.HEADER_SIZE
  {
    seq(IswLayout.HEADER_SIZE, i => 0)
  }

  // The header of a new image before its family number and checksum.
  function FirstHeader(disks: seq<Octets>, devs: seq<Dev>, version: Octets): (h: Octets)
    requires DisksOk(disks) && DevsOk(devs) && |disks| < 256 && |devs| <= 2 && |version| == VERSION_LENGTH
    ensures |h| == IswLayout.HEADER_SIZE
  {
    var h := SetVersion(Splice(NullHeader(), 0, SIGNATURE), version);
    Counted(Put(h, ATTRIBUTES, MPB_ATTRIB_CHECKSUM_VERIFY, 4), disks, devs)
  }

  // _isw_create_first_volume; no volume for a spare disk.
  function CreateFirst(disks: seq<Octets>, devs: seq<Dev>, version: Octets, time: nat): Isw
    requires DisksOk(disks) && DevsOk(devs) && |disks| < 256 && |devs| <= 1 && |version| == VERSION_LENGTH
  {
    var h := FirstHeader(disks, devs, version);
    FirstHeaderOk(disks, devs, version);
    var family := (ChecksumOf(Isw(h, disks, devs)) + time) % B4;
    Image(Put(Put(h, FAMILY_NUM, family, 4), ORIG_FAMILY_NUM, family, 4), disks, devs)
  }

  lemma FirstHeaderOk(disks: seq<Octets>, devs: seq<Dev>, version: Octets)
    requires DisksOk(disks) && DevsOk(devs) && |disks| < 256 && |devs| <= 1 && |version| == VERSION_LENGTH
    ensures Ok(Isw(FirstHeader(disks, devs, version), disks, devs))
  {
    hide Counted;
    CountedOk(Put(SetVersion(Splice(NullHeader(), 0, SIGNATURE), version), ATTRIBUTES, MPB_ATTRIB_CHECKSUM_VERIFY, 4),
      disks, devs);
  }
}
