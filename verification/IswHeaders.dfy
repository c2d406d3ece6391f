/** What the header of an image holds after each edit that creates or removes a volume, and
    what a new volume holds: lib/format/ataraid/isw.c by the fields of isw.h.
 */
module IswHeaders {
  import opened Bits
  import opened ByteOrder
  import opened Buffers
  import opened IswLayout
  import IswChecksum
  import opened IswEdits
  import opened IswRuns
  import IswFields
  import opened IswCreate
  import X = IswExtents

  // The same header but for what belongs to every image: checksum, length and counts.
  ghost predicate HeaderKept(a: Octets, b: Octets) {
    && |a| == |b| == IswLayout.HEADER_SIZE
    && (forall k :: 0 <= k < CHECK_SUM || MPB_SIZE + 4 <= k < NUM_DISKS || NUM_RAID_DEVS < k < |a| ==> b[k] == a[k])
  }

  predicate CountsFit(y: Isw) {
    |y.header| == IswLayout.HEADER_SIZE && y.header[NUM_DISKS] == |y.disks| && y.header[NUM_RAID_DEVS] == |y.devs|
  }

  lemma ImageHeader(h: Octets, disks: seq<Octets>, devs: seq<Dev>)
    requires Parts(h, disks, devs)
    ensures HeaderKept(h, Image(h, disks, devs).header) && CountsFit(Image(h, disks, devs))
  {
    hide Size, IswChecksum.Checksum, Encode, EncodeDevs, EncodeDisks, Bytes, DevOk;
    CountedOk(h, disks, devs);
  }

  // A number in the header.
  function Field(h: Octets, off: nat): nat
    requires off + 4 <= |h|
  {
    Number(Part(h, off, 4))
  }

  lemma FieldKept(a: Octets, b: Octets, off: nat)
    requires HeaderKept(a, b) && off + 4 <= |a|
    requires off + 4 <= CHECK_SUM || MPB_SIZE + 4 <= off <= NUM_DISKS - 4 || NUM_RAID_DEVS < off
    ensures Field(b, off) == Field(a, off)
  {
    assert Part(b, off, 4) == Part(a, off, 4);
  }

  lemma PutField(h: Octets, off: nat, v: nat)
    requires off + 4 <= |h| && v < B4
    ensures Field(Put(h, off, v, 4), off) == v
    ensures forall k :: 0 <= k < |h| && !(off <= k < off + 4) ==> Put(h, off, v, 4)[k] == h[k]
  {
    hide Number, Bytes;
    NumberOfU32(v);
    PartOfSplice(h, off, Bytes(v, 4));
  }

  lemma FieldElsewhere(h: Octets, off: nat, v: nat, at: nat)
    requires off + 4 <= |h| && at + 4 <= |h| && (at + 4 <= off || off + 4 <= at)
    ensures Field(Put(h, off, v, 4), at) == Field(h, at)
  {
    hide Number, Bytes;
    assert Part(Put(h, off, v, 4), at, 4) == Part(h, at, 4);
  }

  // ------------------------------------------------------------ a new image

  const MPB_SIGNATURE := "Intel Raid ISM Cfg Sig. "

  lemma SignatureIs()
    ensures |SIGNATURE| == |MPB_SIGNATURE| == VERSION
    ensures forall k :: 0 <= k < |SIGNATURE| ==> SIGNATURE[k] == MPB_SIGNATURE[k] as int
  {
  }

  // Nothing but the signature, the version and the attributes.
  lemma FirstStamps(version: Octets)
    requires |version| == VERSION_LENGTH
    ensures var h := Put(SetVersion(Splice(NullHeader(), 0, SIGNATURE), version), ATTRIBUTES,
                         MPB_ATTRIB_CHECKSUM_VERIFY, 4);
      && h[..VERSION] == SIGNATURE && Part(h, VERSION, VERSION_LENGTH) == version
      && Field(h, ATTRIBUTES) == 0x8000_0000
      && forall k :: VERSION + VERSION_LENGTH <= k < ATTRIBUTES || ATTRIBUTES + 4 <= k < |h| ==> h[k] == 0
  {
    hide Bytes, Number;
    SignatureIs();
    var a := Splice(NullHeader(), 0, SIGNATURE);
    var b := SetVersion(a, version);
    PutField(b, ATTRIBUTES, MPB_ATTRIB_CHECKSUM_VERIFY);
    var h := Put(b, ATTRIBUTES, MPB_ATTRIB_CHECKSUM_VERIFY, 4);
    PartOfSplice(a, VERSION, version);
    assert Part(h, VERSION, VERSION_LENGTH) == Part(b, VERSION, VERSION_LENGTH);
    assert forall k :: 0 <= k < VERSION ==> h[k] == b[k] == a[k] == SIGNATURE[k];
  }

  lemma CountedKept(h: Octets, disks: seq<Octets>, devs: seq<Dev>)
    requires Parts(h, disks, devs)
    ensures HeaderKept(h, Counted(h, disks, devs))
  {
    hide Bytes, Size, DevOk;
  }

  lemma FamilyPut(h: Octets, f: nat)
    requires |h| == IswLayout.HEADER_SIZE && f < B4
    ensures var g := Put(Put(h, FAMILY_NUM, f, 4), ORIG_FAMILY_NUM, f, 4);
      && Field(g, FAMILY_NUM) == Field(g, ORIG_FAMILY_NUM) == f
      && forall k :: 0 <= k < FAMILY_NUM || GENERATION_NUM <= k < ORIG_FAMILY_NUM || BBM_LOG_SIZE - 4 <= k < |h| ==>
        g[k] == h[k]
  {
    hide Bytes, Number;
    var a := Put(h, FAMILY_NUM, f, 4);
    PutField(h, FAMILY_NUM, f);
    PutField(a, ORIG_FAMILY_NUM, f);
    FieldElsewhere(a, ORIG_FAMILY_NUM, f, FAMILY_NUM);
  }

  // What the header of a first image holds besides checksum and length.
  ghost predicate FirstHeaderHolds(h: Octets, version: Octets, disks: nat, devs: nat) {
    && |h| == IswLayout.HEADER_SIZE && |version| == VERSION_LENGTH
    && h[..VERSION] == SIGNATURE && Part(h, VERSION, VERSION_LENGTH) == version
    && Field(h, ATTRIBUTES) == 0x8000_0000 && Field(h, FAMILY_NUM) == Field(h, ORIG_FAMILY_NUM)
    && Field(h, GENERATION_NUM) == 0 && Field(h, BBM_LOG_SIZE) == 0
    && h[NUM_DISKS] == disks && h[NUM_RAID_DEVS] == devs
  }

  lemma HeldThrough(a: Octets, b: Octets, c: Octets, d: Octets, version: Octets, disks: nat, devs: nat)
    requires |version| == VERSION_LENGTH && HeaderKept(a, b) && HeaderKept(c, d) && |c| == |b|
    requires a[..VERSION] == SIGNATURE && Part(a, VERSION, VERSION_LENGTH) == version
    requires Field(a, ATTRIBUTES) == 0x8000_0000
    requires forall k :: VERSION + VERSION_LENGTH <= k < ATTRIBUTES || ATTRIBUTES + 4 <= k < |a| ==> a[k] == 0
    requires Field(c, FAMILY_NUM) == Field(c, ORIG_FAMILY_NUM)
    requires forall k :: 0 <= k < FAMILY_NUM || GENERATION_NUM <= k < ORIG_FAMILY_NUM || BBM_LOG_SIZE - 4 <= k < |b| ==>
      c[k] == b[k]
    requires d[NUM_DISKS] == disks && d[NUM_RAID_DEVS] == devs
    ensures FirstHeaderHolds(d, version, disks, devs)
  {
    hide Number;
    SignatureIs();
    assert forall k :: 0 <= k < VERSION + VERSION_LENGTH ==> d[k] == c[k] == b[k] == a[k];
    assert d[..VERSION] == a[..VERSION];
    assert Part(d, VERSION, VERSION_LENGTH) == Part(a, VERSION, VERSION_LENGTH);
    assert Part(d, ATTRIBUTES, 4) == Part(a, ATTRIBUTES, 4);
    FieldKept(c, d, FAMILY_NUM);
    FieldKept(c, d, ORIG_FAMILY_NUM);
    ZeroField(d, GENERATION_NUM);
    ZeroField(d, BBM_LOG_SIZE);
  }

  lemma ZeroField(h: Octets, off: nat)
    requires off + 4 <= |h| && forall k :: off <= k < off + 4 ==> h[k] == 0
    ensures Field(h, off) == 0
  {
    Number4(Part(h, off, 4));
  }

  /** A new image has the signature, the version, one attribute, its family number twice, and
      generation 0.
   */
  lemma FirstFields(q: Request)
    requires RequestOk(q)
    ensures var y := CreateFirst(q.disks, q.devs, q.version, q.time);
      && y.disks == q.disks && y.devs == q.devs
      && FirstHeaderHolds(y.header, q.version, |q.disks|, |q.devs|)
  {
    hide Bytes, Number, Counted, Image, DevOk, ChecksumOf, NullHeader, Splice, HeaderKept, FirstHeaderHolds;
    var version, disks, devs := q.version, q.disks, q.devs;
    var a := Put(SetVersion(Splice(NullHeader(), 0, SIGNATURE), version), ATTRIBUTES, MPB_ATTRIB_CHECKSUM_VERIFY, 4);
    FirstStamps(version);
    CountedKept(a, disks, devs);
    var b := FirstHeader(disks, devs, version);
    FirstHeaderOk(disks, devs, version);
    var f := (ChecksumOf(Isw(b, disks, devs)) + q.time) % B4;
    FamilyPut(b, f);
    var c := Put(Put(b, FAMILY_NUM, f, 4), ORIG_FAMILY_NUM, f, 4);
    ImageHeader(c, disks, devs);
    HeldThrough(a, b, c, Image(c, disks, devs).header, version, |disks|, |devs|);
  }

  // -------------------------------------------------- the edits of an image

  // Two version strings, by the first place where they differ.
  ghost predicate Lower(a: Octets, b: Octets)
    requires |a| == |b|
  {
    exists k :: 0 <= k < |a| && a[k] < b[k] && a[..k] == b[..k]
  }

  lemma {:induction false} LessIsLower(a: Octets, b: Octets)
    requires |a| == |b|
    ensures Less(a, b) <==> Lower(a, b)
  {
    if a != [] {
      LessIsLower(a[1..], b[1..]);
      if Lower(a, b) {
        var k :| 0 <= k < |a| && a[k] < b[k] && a[..k] == b[..k];
        if k > 0 {
          assert a[0] == a[..k][0] == b[..k][0] == b[0];
          assert a[1..][..k - 1] == a[..k][1..] && b[1..][..k - 1] == b[..k][1..];
          assert a[1..][k - 1] < b[1..][k - 1];
        }
      }
      if Less(a, b) {
        if a[0] < b[0] {
          assert a[..0] == b[..0];
        } else {
          var k :| 0 <= k < |a[1..]| && a[1..][k] < b[1..][k] && a[1..][..k] == b[1..][..k];
          assert a[..k + 1] == [a[0]] + a[1..][..k] && b[..k + 1] == [b[0]] + b[1..][..k];
          assert a[k + 1] < b[k + 1];
        }
      }
    }
  }

  // The bytes from one place to another are as before.
  ghost predicate Stays(a: Octets, b: Octets, from: nat, to: nat) {
    to <= |a| == |b| && forall k :: from <= k < to ==> b[k] == a[k]
  }

  ghost predicate GenerationCounts(a: Octets, b: Octets) {
    GENERATION_NUM + 4 <= |a| == |b| && Field(b, GENERATION_NUM) == (Field(a, GENERATION_NUM) + 1) % B4
  }

  lemma NextIs(h: Octets)
    requires |h| == IswLayout.HEADER_SIZE
    ensures var g := NextGeneration(h);
      && GenerationCounts(h, g) && Stays(h, g, 0, GENERATION_NUM) && Stays(h, g, GENERATION_NUM + 4, |h|)
  {
    hide Number, Bytes;
    NextGenerationIs(h);
  }

  lemma CountsThrough(a: Octets, b: Octets, c: Octets)
    requires GenerationCounts(a, b) && HeaderKept(b, c)
    ensures GenerationCounts(a, c)
  {
    hide Number;
    FieldKept(b, c, GENERATION_NUM);
  }

  // Only the generation is counted, besides what belongs to every image.
  ghost predicate OnlyCounts(a: Octets, b: Octets) {
    && |a| == IswLayout.HEADER_SIZE && GenerationCounts(a, b)
    && Stays(a, b, 0, CHECK_SUM) && Stays(a, b, FAMILY_NUM, GENERATION_NUM)
    && Stays(a, b, GENERATION_NUM + 4, NUM_DISKS) && Stays(a, b, NUM_RAID_DEVS + 1, |a|)
  }

  lemma NextImage(h: Octets, disks: seq<Octets>, devs: seq<Dev>)
    requires |h| == IswLayout.HEADER_SIZE && Parts(NextGeneration(h), disks, devs)
    ensures OnlyCounts(h, Image(NextGeneration(h), disks, devs).header)
    ensures CountsFit(Image(NextGeneration(h), disks, devs))
  {
    hide Image, NextGeneration, DevOk, GenerationCounts;
    NextIs(h);
    ImageHeader(NextGeneration(h), disks, devs);
    CountsThrough(h, NextGeneration(h), Image(NextGeneration(h), disks, devs).header);
  }

  /** Both ends of a rebuild count the generation in the header and change nothing else in it. */
  lemma RebuildHeaders(x: Isw, e: Edit)
    requires Enabled(x, e) && (e.Start? || e.End?)
    ensures OnlyCounts(x.header, Apply(x, e).header) && CountsFit(Apply(x, e))
  {
    hide Good, Image, DevOk, NextGeneration, StartDev, EndDev, FailedEntry, DropsDisk, OnlyCounts, SameMembers;
    GoodParts(x);
    match e
    case Start(f, disk) =>
      NextImage(x.header, x.disks[f := disk] + [FailedEntry(x.disks[f])], StartDevs(x.devs, f, |x.disks|));
    case End(v) => NextImage(x.header, EndDisks(x, v), EndDevs(x, v));
  }

  /** A second volume counts the generation, sets the attribute, clears the size of the log of
      bad blocks, and raises the version when the new one is higher.
   */
  lemma SecondFields(x: Isw, d: Dev, version: Octets)
    requires Good(x) && |x.devs| == 1 && DevOk(d) && |version| == VERSION_LENGTH
    ensures |x.header| == IswLayout.HEADER_SIZE
    ensures var y, a := CreateSecond(x, d, version), x.header;
      var before := Part(a, VERSION, VERSION_LENGTH);
      && |a| == IswLayout.HEADER_SIZE && CountsFit(y) && GenerationCounts(a, y.header)
      && Field(y.header, ATTRIBUTES) == 0x8000_0000 && Field(y.header, BBM_LOG_SIZE) == 0
      && Part(y.header, VERSION, VERSION_LENGTH) == (if Lower(before, version) then version else before)
      && Stays(a, y.header, 0, VERSION) && Stays(a, y.header, FAMILY_NUM, GENERATION_NUM)
      && Stays(a, y.header, ORIG_FAMILY_NUM, BBM_LOG_SIZE) && Stays(a, y.header, BBM_LOG_SIZE + 4, |a|)
  {
    hide Good, Image, DevOk, NextGeneration, Less, Number, Bytes, Lower;
    GoodParts(x);
    var before := Part(x.header, VERSION, VERSION_LENGTH);
    LessIsLower(before, version);
    var h := if Less(before, version) then SetVersion(x.header, version) else x.header;
    var g := NextGeneration(h);
    var p := Put(g, ATTRIBUTES, MPB_ATTRIB_CHECKSUM_VERIFY, 4);
    var r := Put(p, BBM_LOG_SIZE, 0, 4);
    NextIs(h);
    PutField(g, ATTRIBUTES, MPB_ATTRIB_CHECKSUM_VERIFY);
    PutField(p, BBM_LOG_SIZE, 0);
    FieldElsewhere(p, BBM_LOG_SIZE, 0, ATTRIBUTES);
    FieldElsewhere(g, ATTRIBUTES, MPB_ATTRIB_CHECKSUM_VERIFY, GENERATION_NUM);
    FieldElsewhere(p, BBM_LOG_SIZE, 0, GENERATION_NUM);
    ImageHeader(r, x.disks, x.devs + [d]);
    var y := Image(r, x.disks, x.devs + [d]).header;
    FieldKept(r, y, ATTRIBUTES);
    FieldKept(r, y, BBM_LOG_SIZE);
    FieldKept(r, y, GENERATION_NUM);
    VersionSet(x.header, version);
    assert Part(y, VERSION, VERSION_LENGTH) == Part(h, VERSION, VERSION_LENGTH);
    assert Part(h, GENERATION_NUM, 4) == Part(x.header, GENERATION_NUM, 4);
  }

  lemma VersionSet(h: Octets, version: Octets)
    requires |h| == IswLayout.HEADER_SIZE && |version| == VERSION_LENGTH
    ensures Part(SetVersion(h, version), VERSION, VERSION_LENGTH) == version
  {
    PartOfSplice(h, VERSION, version);
  }

  /** A removal leaves the generation alone; the version goes down to 1.1.00 for a mirror, to
      1.0.00 for a stripe over one or two disks, and stays otherwise.
   */
  lemma RemoveFields(x: Isw, keep: nat)
    requires Good(x) && |x.devs| == 2 && keep < 2
    ensures |x.header| == IswLayout.HEADER_SIZE && DevOk(x.devs[keep])
    ensures var y, a, map0 := RemoveVolume(x, keep), x.header, x.devs[keep].maps[0];
      && y.disks == x.disks && y.devs == [x.devs[keep]] && CountsFit(y)
      && Stays(a, y.header, 0, VERSION) && Stays(a, y.header, VERSION + VERSION_LENGTH, CHECK_SUM)
      && Stays(a, y.header, FAMILY_NUM, NUM_DISKS) && Stays(a, y.header, NUM_RAID_DEVS + 1, |a|)
      && Part(y.header, VERSION, VERSION_LENGTH)
         == (if map0[RAID_LEVEL] == 1 then ['1' as int, '.' as int, '1' as int, '.' as int, '0' as int, '0' as int]
             else if map0[RAID_LEVEL] == 0 && map0[NUM_MEMBERS] < 3 then
               ['1' as int, '.' as int, '0' as int, '.' as int, '0' as int, '0' as int]
             else Part(a, VERSION, VERSION_LENGTH))
  {
    hide Good, Image;
    GoodParts(x);
    var h := Downgraded(x.header, x.devs[keep]);
    VersionSet(x.header, VERSION_RAID0);
    VersionSet(x.header, VERSION_RAID1);
    ImageHeader(h, x.disks, [x.devs[keep]]);
    var y := Image(h, x.disks, [x.devs[keep]]).header;
    assert Part(y, VERSION, VERSION_LENGTH) == Part(h, VERSION, VERSION_LENGTH);
  }

  // ------------------------------------------------------------ a new volume

  // The extent that a map stores.
  function ExtentIn(m: Octets): X.Extent
    requires |m| >= MAP_FIXED
  {
    X.Extent(Number(Part(m, 0, 4)), Number(Part(m, 4, 4)), Number(Part(m, 8, 4)), Number(Part(m, 12, 2)))
  }

  // How often each strip is there.
  function CopiesOf(l: X.Level): nat {
    match l
    case Raid0 => 1
    case Raid1 => 2
    case Raid10 => 2
    case Raid5 => 1
  }

  // The codes of isw.h; RAID 10 is stored as RAID 1.
  function CodeOf(l: X.Level): nat {
    match l
    case Raid0 => 0
    case Raid1 => 1
    case Raid10 => 1
    case Raid5 => 5
  }

  ghost predicate MapHolds(m: Octets, e: X.Extent, l: X.Level, n: byte, state: byte) {
    && |m| == MapSize(n) && ExtentIn(m) == e && IswFields.Ordered(m, n, n)
    && m[MAP_STATE] == state && m[RAID_LEVEL] == CodeOf(l) && m[NUM_MEMBERS] == n && m[NUM_MEMBERS + 1] == CopiesOf(l)
    && m[FAILED_DISK_NUM] == 255 && m[FAILED_DISK_NUM + 1] == 1
  }

  lemma MapExtent(filler: Octets, e: X.Extent, l: X.Level, n: byte, state: byte)
    requires |filler| == 28 && Storable(e)
    ensures ExtentIn(MapBytes(filler, e, l, n, state)) == e
  {
    hide Number, Bytes, OrderTable;
    NumberOfU32(e.pba);
    NumberOfU32(e.blocks);
    NumberOfU32(e.stripes);
    NumberOfU16(e.strip);
    var m, f := MapBytes(filler, e, l, n, state), MapFields(e, l, n, state);
    assert Part(m, 0, 4) == Part(f, 0, 4) == Bytes(e.pba, 4);
    assert Part(m, 4, 4) == Part(f, 4, 4) == Bytes(e.blocks, 4);
    assert Part(m, 8, 4) == Part(f, 8, 4) == Bytes(e.stripes, 4);
    assert Part(m, 12, 2) == Part(f, 12, 2) == Bytes(e.strip, 2);
  }

  lemma MapFlags(filler: Octets, e: X.Extent, l: X.Level, n: byte, state: byte)
    requires |filler| == 28
    ensures var m := MapBytes(filler, e, l, n, state);
      && m[14] == state && m[15] == CodeOf(l) && m[16] == n && m[17] == CopiesOf(l) && m[18] == 255 && m[19] == 1
      && m[MAP_FIXED..] == OrderTable(n, n)
  {
    hide Bytes, OrderTable;
    var m, f := MapBytes(filler, e, l, n, state), MapFields(e, l, n, state);
    var flags: Octets := [state, LevelCode(l), n, Domains(l), ISW_DEV_NONE_FAILED, 1];
    assert forall k :: 0 <= k < 6 ==> f[14 + k] == flags[k];
  }

  lemma MapBytesHold(filler: Octets, e: X.Extent, l: X.Level, n: byte, state: byte)
    requires |filler| == 28 && Storable(e)
    ensures MapHolds(MapBytes(filler, e, l, n, state), e, l, n, state)
  {
    hide Number, Bytes, OrderTable, MapBytes, ExtentIn;
    MapExtent(filler, e, l, n, state);
    MapFlags(filler, e, l, n, state);
    var m := MapBytes(filler, e, l, n, state);
    forall j | 0 <= j < n ensures IswFields.OrderOf(m, j) == if j < n then j else 0 {
      IswFields.OrderEntry(n, n, j);
      assert Part(m, MAP_FIXED + 4 * j, 4) == Part(OrderTable(n, n), 4 * j, 4);
    }
  }

  // The head of a new volume: the name, the size in two halves, the caching of reads and
  // writes, and a migration for RAID 5 on more than four disks.
  ghost predicate HeadHolds(h: Octets, v: Volume, base: Octets)
    requires |v.name| == NAME_SIZE && |base| >= HEAD_SIZE
  {
    && |h| == HEAD_SIZE && h[..NAME_SIZE] == v.name
    && Field(h, 16) == v.size % B4 && Field(h, 20) == v.size / B4 % B4 && Field(h, 24) == 0x04 + 0x08
    && h[MIGR_STATE] == (if v.disks > 4 && v.level.Raid5? then 1 else 0) && h[MIGR_TYPE] == 0
    && forall k :: 28 <= k < MIGR_STATE || MIGR_TYPE < k < HEAD_SIZE ==> h[k] == base[k]
  }

  lemma HeadBytesHold(base: Octets, v: Volume)
    requires VolumeOk(v) && |base| >= HEAD_SIZE
    ensures HeadHolds(HeadBytes(base, v), v, base)
  {
    hide Number, Bytes;
    var h, f := HeadBytes(base, v), NameAndSize(v);
    NumberOfLowBytes(v.size);
    NumberOfLowBytes(v.size / B4);
    NumberOfLowBytes(DEV_STATUS);
    assert Part(h, 16, 4) == Part(f, 16, 4) == Bytes(v.size, 4);
    assert Part(h, 20, 4) == Part(f, 20, 4) == Bytes(v.size / B4, 4);
    assert Part(h, 24, 4) == Part(f, 24, 4) == Bytes(DEV_STATUS, 4);
  }

  /** A new volume, by fields; one that is to be migrated has a second map, uninitialized. */
  lemma NewFields(base: Octets, v: Volume)
    requires VolumeOk(v) && |base| >= VolumeLength(v) && Storable(v.extent) && Storable(v.second)
    ensures var d := NewDev(base, v);
      && HeadHolds(d.head, v, base) && MapHolds(d.maps[0], v.extent, v.level, v.disks, 0)
      && |d.maps| == (if v.disks > 4 && v.level.Raid5? then 2 else 1)
      && (|d.maps| == 2 ==> MapHolds(d.maps[1], v.second, v.level, v.disks, 1))
  {
    hide HeadBytes, MapBytes, MapHolds, HeadHolds;
    HeadBytesHold(base, v);
    MapBytesHold(base[HEAD_SIZE + 20..HEAD_SIZE + MAP_FIXED], v.extent, v.level, v.disks, 0);
    if Migrating(v.level, v.disks) {
      var o := HEAD_SIZE + MapSize(v.disks);
      MapBytesHold(base[o + 20..o + MAP_FIXED], v.second, v.level, v.disks, STATE_UNINITIALIZED);
    }
  }

  /** So a volume that CreateFirstImage or CreateSecondImage adds has the name that was given,
      the size and the extent that were computed, and the codes of its level.
   */
  lemma PlannedFields(d: Dev, name: Octets, size: nat, l: X.Level, n: byte, e: X.Extent)
    requires |name| == NAME_SIZE && n >= 1 && Storable(e) && IsPlanned(d, Plan(name, size, l, n, e))
    ensures |d.head| == HEAD_SIZE && d.head[..NAME_SIZE] == name
    ensures Field(d.head, 16) == size % B4 && Field(d.head, 20) == size / B4 % B4 && Field(d.head, 24) == 0x04 + 0x08
    ensures d.head[MIGR_STATE] == |d.maps| - 1 == (if n > 4 && l.Raid5? then 1 else 0) && d.head[MIGR_TYPE] == 0
    ensures MapHolds(d.maps[0], e, l, n, 0) && (|d.maps| == 2 ==> MapHolds(d.maps[1], e.(pba := 0), l, n, 1))
  {
    hide NewDev, MapHolds, HeadHolds, Field, DevOk;
    var v := Plan(name, size, l, n, e);
    var base: Octets :| |base| >= VolumeLength(v) && d == NewDev(base, v);
    NewFields(base, v);
    HeadGives(d.head, v, base);
  }

  lemma HeadGives(h: Octets, v: Volume, base: Octets)
    requires |v.name| == NAME_SIZE && |base| >= HEAD_SIZE && HeadHolds(h, v, base)
    ensures |h| == HEAD_SIZE && h[..NAME_SIZE] == v.name
    ensures Field(h, 16) == v.size % B4 && Field(h, 20) == v.size / B4 % B4 && Field(h, 24) == 0x04 + 0x08
    ensures h[MIGR_STATE] == (if v.disks > 4 && v.level.Raid5? then 1 else 0) && h[MIGR_TYPE] == 0
  {
    hide Field;
  }
}
