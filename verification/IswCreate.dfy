/** isw_config_dev, _isw_create_first_volume, _isw_create_second_volume and
    isw_remove_dev of lib/format/ataraid/isw.c on byte buffers.
 */
module IswCreate {
  import opened Bits
  import opened ByteOrder
  import opened Buffers
  import opened IswLayout
  import IswChecksum
  import opened IswEdits
  import opened IswRuns
  import opened IswBytes
  import X = IswExtents
  import opened Optional

  const NAME_SIZE := 16
  const DEV_STATUS := 12             // read and write coalescing
  const DISK_THRESHOLD := 4
  const STATE_UNINITIALIZED := 1

  function LevelCode(l: X.Level): byte {
    if l.Raid0? then 0 else if l.Raid5? then 5 else 1
  }

  function Domains(l: X.Level): byte {
    if l.Raid1? || l.Raid10? then 2 else 1
  }

  // The fields of a map before its filler.
  function MapFields(e: X.Extent, l: X.Level, n: byte, state: byte): (r: Octets)
    ensures |r| == 20
  {
    Bytes(e.pba, 4) + Bytes(e.blocks, 4) + Bytes(e.stripes, 4) + Bytes(e.strip, 2)
    + [state, LevelCode(l), n, Domains(l), ISW_DEV_NONE_FAILED, 1]
  }

  function MapBytes(filler: Octets, e: X.Extent, l: X.Level, n: byte, state: byte): (r: Octets)
    requires |filler| == 28
    ensures |r| == MapSize(n) && r[NUM_MEMBERS] == n
  {
    MapFields(e, l, n, state) + filler + OrderTable(n, n)
  }

  // disk_ord_tbl[i] = i
  method WriteOrder(a: array<byte>, o: nat, n: nat)
    requires o + 4 * n <= a.Length
    modifies a
    ensures a[..o + 4 * n] == old(a[..o]) + OrderTable(n, n)
    ensures a[o + 4 * n..] == old(a[o + 4 * n..])
  {
    hide Bytes;
    ghost var s := a[..];
    var i := 0;
    while i < n
      invariant 0 <= i <= n
      invariant a[..o + 4 * i] == s[..o] + OrderTable(i, n)
      invariant a[o + 4 * i..] == s[o + 4 * i..]
    {
      Append(a, o + 4 * i, Bytes(i, 4));
      assert s[o + 4 * i..][4..] == s[o + 4 * i + 4..];
      i := i + 1;
    }
  }

  method WriteFields(a: array<byte>, o: nat, e: X.Extent, l: X.Level, n: byte, state: byte)
    requires o + 20 <= a.Length
    modifies a
    ensures a[..o + 20] == old(a[..o]) + MapFields(e, l, n, state)
    ensures a[o + 20..] == old(a[o + 20..])
  {
    hide Bytes;
    ghost var s := a[..];
    var flags := [state, LevelCode(l), n, Domains(l), ISW_DEV_NONE_FAILED, 1];
    Append(a, o, Bytes(e.pba, 4));
    Append(a, o + 4, Bytes(e.blocks, 4));
    Append(a, o + 8, Bytes(e.stripes, 4));
    Append(a, o + 12, Bytes(e.strip, 2));
    Append(a, o + 14, flags);
    assert MapFields(e, l, n, state)
        == Bytes(e.pba, 4) + Bytes(e.blocks, 4) + Bytes(e.stripes, 4) + Bytes(e.strip, 2) + flags;
    assert forall k :: o + 20 <= k < a.Length ==> a[k] == s[k];
  }

  // The stores of isw_config_map; the state is stored once more for a second map.
  method WriteMap(a: array<byte>, o: nat, e: X.Extent, l: X.Level, n: byte, state: byte)
    requires o + MapSize(n) <= a.Length
    modifies a
    ensures a[..o + MapSize(n)] == old(a[..o]) + MapBytes(old(a[o + 20..o + MAP_FIXED]), e, l, n, state)
    ensures a[o + MapSize(n)..] == old(a[o + MapSize(n)..])
  {
    hide OrderTable, MapFields;
    ghost var s, fields := a[..], MapFields(e, l, n, state);
    WriteFields(a, o, e, l, n, state);
    ghost var s1 := a[..];
    WriteOrder(a, o + MAP_FIXED, n);
    AfterFields(s, s1, o, fields);
  }

  lemma AfterFields(s: Octets, s1: Octets, o: nat, fields: Octets)
    requires |fields| == 20 && |s| == |s1| >= o + MAP_FIXED && s1[..o + 20] == s[..o] + fields
      && s1[o + 20..] == s[o + 20..]
    ensures s1[..o + MAP_FIXED] == s[..o] + fields + s[o + 20..o + MAP_FIXED]
  {
    assert s1[..o + MAP_FIXED] == s1[..o + 20] + s1[o + 20..][..28];
    assert s[o + 20..o + MAP_FIXED] == s[o + 20..][..28];
  }

  predicate Migrating(l: X.Level, n: nat) {
    n > DISK_THRESHOLD && l.Raid5?
  }

  // What isw_config_dev is told, with the two maps it configures.
  datatype Volume = Volume(name: Octets, size: nat, level: X.Level, disks: byte, extent: X.Extent, second: X.Extent)

  predicate VolumeOk(v: Volume) {
    |v.name| == NAME_SIZE && v.disks >= 1
  }

  function VolumeLength(v: Volume): nat {
    HEAD_SIZE + (if Migrating(v.level, v.disks) then 2 else 1) * MapSize(v.disks)
  }

  function NameAndSize(v: Volume): (r: Octets)
    requires VolumeOk(v)
    ensures |r| == 28
  {
    v.name + Bytes(v.size, 4) + Bytes(v.size / B4, 4) + Bytes(DEV_STATUS, 4)
  }

  function Migr(v: Volume): byte {
    if Migrating(v.level, v.disks) then 1 else 0
  }

  function HeadBytes(base: Octets, v: Volume): (r: Octets)
    requires VolumeOk(v) && |base| >= HEAD_SIZE
    ensures |r| == HEAD_SIZE && r[MIGR_STATE] == Migr(v) && r[MIGR_TYPE] == 0
  {
    NameAndSize(v) + base[28..MIGR_STATE] + [Migr(v), 0] + base[MIGR_TYPE + 1..HEAD_SIZE]
  }

  // The new volume, over what the buffer held.
  function NewDev(base: Octets, v: Volume): (d: Dev)
    requires VolumeOk(v) && |base| >= VolumeLength(v)
    ensures DevOk(d) && Members(d) == v.disks && DevLength(d) == VolumeLength(v)
    ensures d.head[MIGR_TYPE] == 0
  {
    var head := HeadBytes(base, v);
    var o := HEAD_SIZE + MapSize(v.disks);
    var map0 := MapBytes(base[HEAD_SIZE + 20..HEAD_SIZE + MAP_FIXED], v.extent, v.level, v.disks, 0);
    if !Migrating(v.level, v.disks) then Dev(head, [map0])
    else Dev(head, [map0, MapBytes(base[o + 20..o + MAP_FIXED], v.second, v.level, v.disks, STATE_UNINITIALIZED)])
  }

  // The stores of isw_config_dev before the maps.
  method WriteHead(a: array<byte>, o: nat, v: Volume)
    requires VolumeOk(v) && o + HEAD_SIZE <= a.Length
    modifies a
    ensures a[..o + HEAD_SIZE] == old(a[..o]) + HeadBytes(old(a[o..]), v)
    ensures a[o + HEAD_SIZE..] == old(a[o + HEAD_SIZE..])
  {
    hide Bytes;
    ghost var s := a[..];
    WriteName(a, o, v);
    ghost var s1 := a[..];
    assert s1[..o + MIGR_STATE] == s1[..o + 28] + s1[o + 28..][..MIGR_STATE - 28];
    Append(a, o + MIGR_STATE, [Migr(v), 0]);
    ghost var s2 := a[..];
    HeadTail(s, s1, s2, o);
  }

  method WriteName(a: array<byte>, o: nat, v: Volume)
    requires VolumeOk(v) && o + HEAD_SIZE <= a.Length
    modifies a
    ensures a[..o + 28] == old(a[..o]) + NameAndSize(v) && a[o + 28..] == old(a[o + 28..])
  {
    hide Bytes;
    Append(a, o, v.name);
    Append(a, o + 16, Bytes(v.size, 4));
    Append(a, o + 20, Bytes(v.size / B4, 4));
    Append(a, o + 24, Bytes(DEV_STATUS, 4));
  }

  lemma HeadTail(s: Octets, s1: Octets, s2: Octets, o: nat)
    requires |s| == |s1| == |s2| >= o + HEAD_SIZE
    requires s1[o + 28..] == s[o + 28..] && s2[o + MIGR_TYPE + 1..] == s1[o + MIGR_TYPE + 1..]
    ensures s1[o + 28..][..MIGR_STATE - 28] == s[o..][28..MIGR_STATE]
    ensures s2[..o + HEAD_SIZE] == s2[..o + MIGR_TYPE + 1] + s[o..][MIGR_TYPE + 1..HEAD_SIZE]
    ensures s2[o + HEAD_SIZE..] == s[o + HEAD_SIZE..]
  {
    var t := s2[o + MIGR_TYPE + 1..];
    assert t == s[o + MIGR_TYPE + 1..];
    assert s2[..o + HEAD_SIZE] == s2[..o + MIGR_TYPE + 1] + t[..HEAD_SIZE - MIGR_TYPE - 1];
    assert t[..HEAD_SIZE - MIGR_TYPE - 1] == s[o..][MIGR_TYPE + 1..HEAD_SIZE];
    assert s2[o + HEAD_SIZE..] == t[HEAD_SIZE - MIGR_TYPE - 1..];
    assert s[o + HEAD_SIZE..] == s[o + MIGR_TYPE + 1..][HEAD_SIZE - MIGR_TYPE - 1..];
  }

  // All of isw_config_dev but the checks.
  method WriteDev(a: array<byte>, o: nat, v: Volume) returns (len: nat, ghost d: Dev)
    requires VolumeOk(v) && o + VolumeLength(v) <= a.Length
    modifies a
    ensures d == NewDev(old(a[o..]), v) && len == DevLength(d)
    ensures a[..o + len] == old(a[..o]) + EncodeDev(d)
    ensures a[o + len..] == old(a[o + len..])
  {
    hide HeadBytes, MapBytes;
    ghost var s := a[..];
    d := NewDev(a[o..], v);
    len := WriteFirst(a, o, v);
    if Migrating(v.level, v.disks) {
      ghost var s1 := a[..];
      Filler(s, s1, o, o + len);
      WriteMap(a, o + len, v.second, v.level, v.disks, STATE_UNINITIALIZED);
      len := len + MapSize(v.disks);
      assert a[..o + len] == s[..o] + (d.head + d.maps[0] + d.maps[1]);
    }
  }

  // The head and the first map.
  method WriteFirst(a: array<byte>, o: nat, v: Volume) returns (len: nat)
    requires VolumeOk(v) && o + VolumeLength(v) <= a.Length
    modifies a
    ensures len == HEAD_SIZE + MapSize(v.disks)
    ensures a[..o + len] == old(a[..o]) + (NewDev(old(a[o..]), v).head + NewDev(old(a[o..]), v).maps[0])
    ensures a[o + len..] == old(a[o + len..])
  {
    hide HeadBytes, MapBytes;
    ghost var s := a[..];
    WriteHead(a, o, v);
    Filler(s, a[..], o, o + HEAD_SIZE);
    WriteMap(a, o + HEAD_SIZE, v.extent, v.level, v.disks, 0);
    len := HEAD_SIZE + MapSize(v.disks);
  }

  // The filler of a map is still what the buffer held.
  lemma Filler(s: Octets, r: Octets, o: nat, at: nat)
    requires o <= at && at + MAP_FIXED <= |s| == |r| && r[at..] == s[at..]
    ensures r[at + 20..at + MAP_FIXED] == s[o..][at - o + 20..at - o + MAP_FIXED]
  {
    assert r[at + 20..at + MAP_FIXED] == r[at..][20..MAP_FIXED];
    assert s[at + 20..at + MAP_FIXED] == s[at..][20..MAP_FIXED];
  }

  // ----------------------------------------------------------- first volume

  // The disk table of a new image.
  method WriteDisks(a: array<byte>, disks: seq<Octets>)
    requires DisksOk(disks) && IswLayout.HEADER_SIZE + DISK_SIZE * |disks| <= a.Length
    modifies a
    ensures a[..IswLayout.HEADER_SIZE + DISK_SIZE * |disks|] == old(a[..IswLayout.HEADER_SIZE]) + EncodeDisks(disks)
    ensures forall k :: IswLayout.HEADER_SIZE + DISK_SIZE * |disks| <= k < a.Length ==> a[k] == old(a[k])
  {
    hide EncodeDisks;
    var i := 0;
    while i < |disks|
      invariant 0 <= i <= |disks|
      invariant a[..IswLayout.HEADER_SIZE + DISK_SIZE * i] == old(a[..IswLayout.HEADER_SIZE]) + EncodeDisks(disks[..i])
      invariant forall k :: IswLayout.HEADER_SIZE + DISK_SIZE * i <= k < a.Length ==> a[k] == old(a[k])
    {
      NextDisk(disks, i);
      Append(a, IswLayout.HEADER_SIZE + DISK_SIZE * i, disks[i]);
      i := i + 1;
    }
    assert disks[..i] == disks;
  }

  // The stores into the header of a new image, before the family number.
  function Stamped(h: Octets, sig: Octets, version: Octets, size: nat, devs: byte): (r: Octets)
    requires |h| == IswLayout.HEADER_SIZE && |sig| == 24 && |version| == VERSION_LENGTH
    ensures |r| == |h|
  {
    var h1 := Put(Splice(Splice(h, 0, sig), VERSION, version), MPB_SIZE, size, 4);
    Put(h1, ATTRIBUTES, MPB_ATTRIB_CHECKSUM_VERIFY, 4)[NUM_RAID_DEVS := devs]
  }

  method StampName(a: array<byte>, sig: Octets, version: Octets, ghost h: Octets, ghost body: Octets)
    requires |h| == IswLayout.HEADER_SIZE && |sig| == 24 && |version| == VERSION_LENGTH && a[..] == h + body
    modifies a
    ensures a[..] == Splice(Splice(h, 0, sig), VERSION, version) + body
  {
    Overwrite(a, 0, sig);
    Overwrite(a, VERSION, version);
  }

  method StampFirst(a: array<byte>, sig: Octets, version: Octets, size: nat, ghost h: Octets, ghost body: Octets)
    requires |h| == IswLayout.HEADER_SIZE && |sig| == 24 && |version| == VERSION_LENGTH && a[..] == h + body
    modifies a
    ensures a[..] == Stamped(h, sig, version, size, 1) + body
  {
    hide Bytes, Splice;
    StampName(a, sig, version, h, body);
    ghost var h2 := Splice(Splice(h, 0, sig), VERSION, version);
    Overwrite(a, MPB_SIZE, Bytes(size, 4));
    ghost var h3 := Put(h2, MPB_SIZE, size, 4);
    Overwrite(a, ATTRIBUTES, Bytes(MPB_ATTRIB_CHECKSUM_VERIFY, 4));
    SetVolumes(a, 1, Put(h3, ATTRIBUTES, MPB_ATTRIB_CHECKSUM_VERIFY, 4), body);
  }

  method SetVolumes(a: array<byte>, n: byte, ghost h: Octets, ghost body: Octets)
    requires |h| == IswLayout.HEADER_SIZE && a[..] == h + body
    modifies a
    ensures a[..] == h[NUM_RAID_DEVS := n] + body
  {
    a[NUM_RAID_DEVS] := n;
  }

  lemma StampedIs(disks: seq<Octets>, devs: seq<Dev>, version: Octets)
    requires Parts(NullHeader(), disks, devs) && |devs| == 1 && |version| == VERSION_LENGTH
    ensures Stamped(NullHeader()[NUM_DISKS := |disks|], SIGNATURE, version, Size(disks, devs), 1)
         == FirstHeader(disks, devs, version)
  {
    hide Bytes, Size, DevOk;
    var sig := SIGNATURE;
    assert |sig| == 24;
    StampedIsFor(disks, devs, sig, version, Size(disks, devs));
  }

  lemma StampedIsFor(disks: seq<Octets>, devs: seq<Dev>, sig: Octets, version: Octets, size: nat)
    requires |sig| == 24 && |version| == VERSION_LENGTH && |disks| < 256 && |devs| == 1
    ensures var h := Put(SetVersion(Splice(NullHeader(), 0, sig), version), ATTRIBUTES, MPB_ATTRIB_CHECKSUM_VERIFY, 4);
      Stamped(NullHeader()[NUM_DISKS := |disks|], sig, version, size, 1)
      == Put(h[NUM_DISKS := |disks|][NUM_RAID_DEVS := |devs|], MPB_SIZE, size, 4)
  {
    hide Bytes, NullHeader;
  }

  ghost function Family(disks: seq<Octets>, devs: seq<Dev>, version: Octets, time: nat): nat
    requires RequestOk(Request(disks, devs, version, time))
  {
    FirstHeaderOk(disks, devs, version);
    (ChecksumOf(Isw(FirstHeader(disks, devs, version), disks, devs)) + time) % B4
  }

  ghost function FamilyHeader(disks: seq<Octets>, devs: seq<Dev>, version: Octets, time: nat): (h: Octets)
    requires RequestOk(Request(disks, devs, version, time))
    ensures |h| == IswLayout.HEADER_SIZE
  {
    var f := Family(disks, devs, version, time);
    Put(Put(FirstHeader(disks, devs, version), FAMILY_NUM, f, 4), ORIG_FAMILY_NUM, f, 4)
  }

  // family_num = orig_family_num = checksum + time
  method StampFamily(a: array<byte>, time: nat, ghost disks: seq<Octets>, ghost devs: seq<Dev>, ghost version: Octets,
                     ghost tail: Octets)
    requires RequestOk(Request(disks, devs, version, time))
    requires a[..] == FirstHeader(disks, devs, version) + (EncodeDisks(disks) + EncodeDevs(devs) + tail)
    modifies a
    ensures a[..] == FamilyHeader(disks, devs, version, time) + (EncodeDisks(disks) + EncodeDevs(devs) + tail)
  {
    hide Bytes, FirstHeader, EncodeDisks, EncodeDevs, DevOk, IswChecksum.Checksum;
    FirstHeaderOk(disks, devs, version);
    ghost var h := FirstHeader(disks, devs, version);
    ghost var y := Isw(h, disks, devs);
    OkSize(y);
    assert a[..] == Encode(y) + tail;
    IswChecksum.ChecksumOfPrefix(Encode(y), tail);
    var sum := ComputeChecksum(a);
    StoreFamily(a, (sum + time) % B4, h, EncodeDisks(disks) + EncodeDevs(devs) + tail);
  }

  method StoreFamily(a: array<byte>, family: nat, ghost h: Octets, ghost body: Octets)
    requires |h| == IswLayout.HEADER_SIZE && a[..] == h + body
    modifies a
    ensures a[..] == Put(Put(h, FAMILY_NUM, family, 4), ORIG_FAMILY_NUM, family, 4) + body
  {
    hide Bytes;
    Overwrite(a, FAMILY_NUM, Bytes(family, 4));
    Overwrite(a, ORIG_FAMILY_NUM, Bytes(family, 4));
  }

  lemma FamilyIsCounted(disks: seq<Octets>, devs: seq<Dev>, version: Octets, time: nat)
    requires RequestOk(Request(disks, devs, version, time))
    ensures Counted(FamilyHeader(disks, devs, version, time), disks, devs) == FamilyHeader(disks, devs, version, time)
    ensures CreateFirst(disks, devs, version, time) == Image(FamilyHeader(disks, devs, version, time), disks, devs)
  {
    hide Bytes, Size, DevOk, Family, ChecksumOf, Image;
    var f := Family(disks, devs, version, time);
    assert CreateFirst(disks, devs, version, time) == Image(FamilyHeader(disks, devs, version, time), disks, devs) by {
      FamilyIs(disks, devs, version, time);
    }
    var h := Put(SetVersion(Splice(NullHeader(), 0, SIGNATURE), version), ATTRIBUTES, MPB_ATTRIB_CHECKSUM_VERIFY, 4);
    CountedTwice(h, disks, devs, f);
  }

  lemma FamilyIs(disks: seq<Octets>, devs: seq<Dev>, version: Octets, time: nat)
    requires RequestOk(Request(disks, devs, version, time))
    ensures CreateFirst(disks, devs, version, time) == Image(FamilyHeader(disks, devs, version, time), disks, devs)
  {
    hide Bytes, FirstHeader, Image, DevOk, ChecksumOf;
  }

  lemma CountedTwice(h: Octets, disks: seq<Octets>, devs: seq<Dev>, f: nat)
    requires Parts(h, disks, devs)
    ensures var c := Put(Put(Counted(h, disks, devs), FAMILY_NUM, f, 4), ORIG_FAMILY_NUM, f, 4);
      Counted(c, disks, devs) == c
  {
    hide Bytes, Size, DevOk;
  }

  // What isw_config_dev is told for an extent: the second map begins at the first block.
  function Plan(name: Octets, size: nat, l: X.Level, n: byte, e: X.Extent): Volume {
    Volume(name, size, l, n, e, e.(pba := 0))
  }

  // A volume that was made like this.
  ghost predicate IsPlanned(d: Dev, v: Volume)
    requires VolumeOk(v)
  {
    exists base: Octets :: |base| >= VolumeLength(v) && d == NewDev(base, v)
  }

  lemma SameButFirst(l: X.Level, n: nat, stride: nat, size: nat, first: nat)
    requires X.DisksAllowed(l, n)
    ensures X.ConfigMap(l, n, stride, size, 0) == X.ConfigMap(l, n, stride, size, first).(pba := 0)
  {
  }

  // The volume that a first request makes, when it is accepted.
  method PlanFirst(sectors: seq<nat>, name: Octets, l: X.Level, stride: nat, size: nat) returns (ok: bool, v: Volume)
    requires X.DisksAllowed(l, |sectors|) && |name| == NAME_SIZE
    ensures ok == X.CreateFirst(sectors, l, stride, size).Some?
    ensures ok ==> VolumeOk(v) && v.disks == |sectors| && Storable(v.extent) && v.level == l
    ensures ok ==>
      v == Plan(name, X.FirstSize(sectors, l, size), l, |sectors|, X.CreateFirst(sectors, l, stride, size).value)
  {
    hide X.ConfigMap, X.ArraySize;
    var asked := X.Limited(size);
    var total := X.CalArraySize(sectors, l, None);
    ok := asked <= total;
    var given := if asked != 0 then asked else total;
    var e := X.ConfigMap(l, |sectors|, stride, given, 0);
    MapIsStorable(l, |sectors|, stride, given, 0);
    SameButFirst(l, |sectors|, stride, given, 0);
    v := Volume(name, given, l, |sectors|, e, e);
  }

  // _isw_create_first_volume for the disks of a set, given their entries.
  method CreateFirstImage(disks: seq<Octets>, sectors: seq<nat>, name: Octets, l: X.Level, stride: nat, size: nat,
                          version: Octets, time: nat)
    returns (ok: bool, image: array<byte>, ghost d: Dev)
    requires DisksOk(disks) && |disks| == |sectors| && X.DisksAllowed(l, |sectors|)
    requires |name| == NAME_SIZE && |version| == VERSION_LENGTH
    ensures ok == X.CreateFirst(sectors, l, stride, size).Some?
    ensures ok ==> Created(d, |sectors|) && |d.maps| == if Migrating(l, |sectors|) then 2 else 1
    ensures ok ==> ExtentOf(d) == X.CreateFirst(sectors, l, stride, size).value
    ensures ok ==>
      IsPlanned(d, Plan(name, X.FirstSize(sectors, l, size), l, |sectors|,
                        X.CreateFirst(sectors, l, stride, size).value))
    ensures ok ==> fresh(image) && Begins(image[..], CreateFirst(disks, [d], version, time))
  {
    hide X.CreateFirst, ExtentOf, NewDev, EncodeDev, DevOk, Begins, EncodeDevs, EncodeDisks, Image, CreateFirst,
         Members;
    var v;
    ok, v := PlanFirst(sectors, name, l, stride, size);
    image, d := new byte[1024](k => 0), Dev([], []);
    if ok {
      AllowedLength(v, l, |sectors|);
      var length;
      ghost var tail;
      length, d, tail := WriteFirstVolume(image, disks, v);
      CloseFirst(image, length, version, time, disks, d, tail);
    }
  }

  // The header with the count of disks only.
  function CountHeader(n: byte): (h: Octets)
    ensures |h| == IswLayout.HEADER_SIZE
  {
    NullHeader()[NUM_DISKS := n]
  }

  // isw_config_disks and isw_config_dev in a new buffer.
  method WriteFirstVolume(image: array<byte>, disks: seq<Octets>, v: Volume)
    returns (size: nat, ghost d: Dev, ghost tail: Octets)
    requires DisksOk(disks) && VolumeOk(v) && v.disks == |disks| && Storable(v.extent)
    requires IswLayout.HEADER_SIZE + DISK_SIZE * |disks| + VolumeLength(v) <= image.Length
    requires forall k :: 0 <= k < image.Length ==> image[k] == 0
    modifies image
    ensures Created(d, v.disks) && ExtentOf(d) == v.extent && IsPlanned(d, v)
    ensures |d.maps| == if Migrating(v.level, v.disks) then 2 else 1
    ensures size == Size(disks, [d])
    ensures image[..] == CountHeader(v.disks) + (EncodeDisks(disks) + EncodeDevs([d]) + tail)
  {
    hide EncodeDisks, EncodeDev, EncodeDevs, NewDev, ExtentOf, Members, DevOk, Storable, IsPlanned, Created, Migrating;
    WriteDisks(image, disks);
    CountDisks(image, v.disks, EncodeDisks(disks));
    var o := IswLayout.HEADER_SIZE + DISK_SIZE * |disks|;
    ghost var base := image[o..];
    var n;
    n, d := WriteDev(image, o, v);
    NewDevExtent(base, v);
    NewState(base, v);
    NewIsPlanned(base, v);
    NewIsCreated(base, v);
    OneDev(d);
    size, tail := o + n, image[o + n..];
    assert image[..] == image[..o + n] + tail;
  }

  method CountDisks(image: array<byte>, n: byte, ghost table: Octets)
    requires IswLayout.HEADER_SIZE + |table| <= image.Length
    requires image[..IswLayout.HEADER_SIZE + |table|] == NullHeader() + table
    modifies image
    ensures image[..IswLayout.HEADER_SIZE + |table|] == CountHeader(n) + table
    ensures forall k :: IswLayout.HEADER_SIZE + |table| <= k < image.Length ==> image[k] == old(image[k])
  {
    image[NUM_DISKS] := n;
  }

  // The header, the family number and the checksum.
  method CloseFirst(image: array<byte>, size: nat, version: Octets, time: nat, ghost disks: seq<Octets>, ghost d: Dev,
                    ghost tail: Octets)
    requires RequestOk(Request(disks, [d], version, time)) && size == Size(disks, [d])
    requires image[..] == CountHeader(|disks|) + (EncodeDisks(disks) + EncodeDevs([d]) + tail)
    modifies image
    ensures Begins(image[..], CreateFirst(disks, [d], version, time))
  {
    hide EncodeDisks, EncodeDevs, DevOk, Stamped, FirstHeader, FamilyHeader, Image, CreateFirst, Size, NullHeader;
    ghost var body := EncodeDisks(disks) + EncodeDevs([d]) + tail;
    StampFirst(image, SIGNATURE, version, size, CountHeader(|disks|), body);
    StampedIs(disks, [d], version);
    StampFamily(image, time, disks, [d], version, tail);
    FamilyIsCounted(disks, [d], version, time);
    StoreChecksum(image, FamilyHeader(disks, [d], version, time), disks, [d], tail);
    ImageIs(FamilyHeader(disks, [d], version, time), disks, [d]);
  }

  // ---------------------------------------------------------- second volume

  // The extent that a volume's first map stores.
  function ExtentOf(d: Dev): X.Extent
    requires DevOk(d)
  {
    var m := d.maps[0];
    X.Extent(Number(Part(m, 0, 4)), Number(Part(m, 4, 4)), Number(Part(m, 8, 4)), Number(Part(m, 12, 2)))
  }

  predicate Storable(e: X.Extent) {
    e.pba < B4 && e.blocks < B4 && e.stripes < B4 && e.strip < B2
  }

  lemma NewDevExtent(base: Octets, v: Volume)
    requires VolumeOk(v) && |base| >= VolumeLength(v) && Storable(v.extent)
    ensures ExtentOf(NewDev(base, v)) == v.extent
  {
    hide Number, Bytes, OrderTable, HeadBytes;
    var e := v.extent;
    NumberOfU32(e.pba);
    NumberOfU32(e.blocks);
    NumberOfU32(e.stripes);
    NumberOfU16(e.strip);
    var m := MapBytes(base[HEAD_SIZE + 20..HEAD_SIZE + MAP_FIXED], e, v.level, v.disks, 0);
    var f := MapFields(e, v.level, v.disks, 0);
    assert Part(m, 0, 4) == Part(f, 0, 4) == Bytes(e.pba, 4);
    assert Part(m, 4, 4) == Part(f, 4, 4) == Bytes(e.blocks, 4);
    assert Part(m, 8, 4) == Part(f, 8, 4) == Bytes(e.stripes, 4);
    assert Part(m, 12, 2) == Part(f, 12, 2) == Bytes(e.strip, 2);
  }

  lemma NumberOfU16(v: nat)
    requires v < B2
    ensures Number(Bytes(v, 2)) == v
  {
    assert Pow2(16) == B2 by {
      assert Pow2(12) == 16 * Pow2(8) && Pow2(16) == 16 * Pow2(12);
    }
    NumberOfBytes(v, 2);
  }

  // The first map of a volume in a buffer.
  method ReadExtent(a: array<byte>, o: nat, ghost d: Dev) returns (e: X.Extent)
    requires DevOk(d) && o + DevLength(d) <= a.Length && a[o..o + DevLength(d)] == EncodeDev(d)
    ensures e == ExtentOf(d)
  {
    hide Number;
    var m := o + HEAD_SIZE;
    MapInRecord(d);
    SliceOfSlice(a[..], o, DevLength(d), HEAD_SIZE, HEAD_SIZE + MAP_FIXED);
    assert a[m..m + MAP_FIXED] == a[..][m..m + MAP_FIXED] && a[o..o + DevLength(d)] == a[..][o..o + DevLength(d)];
    e := X.Extent(Number(a[m..m + 4]), Number(a[m + 4..m + 8]), Number(a[m + 8..m + 12]), Number(a[m + 12..m + 14]));
    MapField(a[..], m, d.maps[0], 0, 4);
    MapField(a[..], m, d.maps[0], 4, 4);
    MapField(a[..], m, d.maps[0], 8, 4);
    MapField(a[..], m, d.maps[0], 12, 2);
  }

  lemma MapField(s: Octets, m: nat, t: Octets, k: nat, n: nat)
    requires m + MAP_FIXED <= |s| && |t| >= MAP_FIXED && s[m..m + MAP_FIXED] == t[..MAP_FIXED] && k + n <= MAP_FIXED
    ensures s[m + k..m + k + n] == Part(t, k, n)
  {
    SliceOfSlice(s, m, MAP_FIXED, k, k + n);
    SliceOfPrefix(t, MAP_FIXED, k, k + n);
  }

  lemma MapInRecord(d: Dev)
    requires DevOk(d)
    ensures EncodeDev(d)[HEAD_SIZE..HEAD_SIZE + MAP_FIXED] == d.maps[0][..MAP_FIXED]
  {
  }

  function Increment(b: byte): byte {
    var n: nat := b;
    (n + 1) % 256
  }

  // The header of the new image before the counters are brought up to date.
  function SecondHeader(h: Octets, version: Octets): (r: Octets)
    requires |h| == IswLayout.HEADER_SIZE && |version| == VERSION_LENGTH
    ensures |r| == |h| && r[NUM_DISKS] == h[NUM_DISKS] && r[NUM_RAID_DEVS] == Increment(h[NUM_RAID_DEVS])
  {
    var h1 := if Less(Part(h, VERSION, VERSION_LENGTH), version) then SetVersion(h, version) else h;
    var h2 := h1[NUM_RAID_DEVS := Increment(h[NUM_RAID_DEVS])];
    Put(Put(h2, ATTRIBUTES, MPB_ATTRIB_CHECKSUM_VERIFY, 4), BBM_LOG_SIZE, 0, 4)
  }

  method StampSecond(a: array<byte>, version: Octets, ghost h: Octets, ghost body: Octets)
    requires |h| == IswLayout.HEADER_SIZE && |version| == VERSION_LENGTH && a[..] == h + body
    modifies a
    ensures a[..] == SecondHeader(h, version) + body
  {
    hide Bytes, Less;
    assert a[VERSION..VERSION + VERSION_LENGTH] == Part(h, VERSION, VERSION_LENGTH);
    ghost var h1 := h;
    if Less(a[VERSION..VERSION + VERSION_LENGTH], version) {
      Overwrite(a, VERSION, version);
      SpliceInHead(h, body, VERSION, version);
      h1 := SetVersion(h, version);
    }
    CountVolume(a, h1, body);
    ghost var h2: Octets := h1[NUM_RAID_DEVS := Increment(h1[NUM_RAID_DEVS])];
    Overwrite(a, ATTRIBUTES, Bytes(MPB_ATTRIB_CHECKSUM_VERIFY, 4));
    SpliceInHead(h2, body, ATTRIBUTES, Bytes(MPB_ATTRIB_CHECKSUM_VERIFY, 4));
    ghost var h3 := Put(h2, ATTRIBUTES, MPB_ATTRIB_CHECKSUM_VERIFY, 4);
    Overwrite(a, BBM_LOG_SIZE, Bytes(0, 4));
    SpliceInHead(h3, body, BBM_LOG_SIZE, Bytes(0, 4));
  }

  lemma SpliceInHead(h: Octets, body: Octets, off: nat, t: Octets)
    requires off + |t| <= |h|
    ensures Splice(h + body, off, t) == Splice(h, off, t) + body
  {
  }

  // num_raid_devs++
  method CountVolume(a: array<byte>, ghost h: Octets, ghost body: Octets)
    requires |h| == IswLayout.HEADER_SIZE && a[..] == h + body
    modifies a
    ensures a[..] == h[NUM_RAID_DEVS := Increment(h[NUM_RAID_DEVS])] + body
  {
    a[NUM_RAID_DEVS] := Increment(a[NUM_RAID_DEVS]);
  }

  // The stores are in another order than in CreateSecond.
  lemma SecondHeaderIs(x: Isw, d: Dev, version: Octets)
    requires Good(x) && |x.devs| == 1 && DevOk(d) && |version| == VERSION_LENGTH
    ensures Parts(SecondHeader(x.header, version), x.disks, x.devs + [d])
    ensures Image(NextGeneration(SecondHeader(x.header, version)), x.disks, x.devs + [d]) == CreateSecond(x, d, version)
  {
    hide Bytes, Less, Number, EncodeDisks, EncodeDevs, DevOk, IswChecksum.Accepted, Size, Seal;
    GoodParts(x);
    var h := if Less(Part(x.header, VERSION, VERSION_LENGTH), version) then SetVersion(x.header, version) else x.header;
    var devs := x.devs + [d];
    var s := SecondHeader(x.header, version);
    var g := Put(Put(NextGeneration(h), ATTRIBUTES, MPB_ATTRIB_CHECKSUM_VERIFY, 4), BBM_LOG_SIZE, 0, 4);
    assert Part(s, GENERATION_NUM, 4) == Part(h, GENERATION_NUM, 4);
    assert Counted(NextGeneration(s), x.disks, devs) == Counted(g, x.disks, devs);
  }

  // A buffer begins with an image.
  ghost predicate Begins(s: Octets, y: Isw) {
    Shaped(y) && Encode(y) <= s
  }

  // ConfigMap gives numbers of 32 bits.
  lemma MapIsStorable(l: X.Level, n: nat, stride: nat, size: nat, first: nat)
    requires X.DisksAllowed(l, n)
    ensures Storable(X.ConfigMap(l, n, stride, size, first))
  {
    X.StrideBounds(l, stride);
  }

  // The volume that a second request adds, when it is accepted.
  method PlanSecond(existing: X.Extent, sectors: seq<nat>, name: Octets, l: X.Level, stride: nat)
    returns (ok: bool, v: Volume)
    requires X.DisksAllowed(l, |sectors|) && |name| == NAME_SIZE
    ensures ok == X.CreateSecond(sectors, l, stride, existing).Some?
    ensures ok ==> VolumeOk(v) && v.disks == |sectors| && Storable(v.extent) && v.level == l
    ensures ok ==> v.extent == X.CreateSecond(sectors, l, stride, existing).value
    ensures ok ==>
      v == Plan(name, X.ArraySize(sectors, l, Some(existing)), l, |sectors|,
                X.CreateSecond(sectors, l, stride, existing).value)
  {
    hide X.ConfigMap, X.ArraySize;
    var total := X.CalArraySize(sectors, l, Some(existing));
    var low := if existing.pba == 0 then (existing.blocks + X.MIGR_OPT_SPACE) % B4 else 0;
    var e := X.ConfigMap(l, |sectors|, stride, total, low);
    MapIsStorable(l, |sectors|, stride, total, low);
    SameButFirst(l, |sectors|, stride, total, low);
    v := Volume(name, total, l, |sectors|, e, X.ConfigMap(l, |sectors|, stride, total, 0));
    ok := total >= X.MIN_VOLUME_SIZE && (existing.pba == 0 || (e.blocks + X.MIGR_OPT_SPACE) % B4 <= existing.pba);
  }

  // _isw_create_second_volume, given the area read from the disks.
  method CreateSecondImage(source: array<byte>, sectors: seq<nat>, name: Octets, l: X.Level, stride: nat,
      version: Octets,
                           ghost x: Isw, ghost rest: Octets)
    returns (ok: bool, image: array<byte>, ghost d: Dev)
    requires Good(x) && |x.devs| == 1 && |x.disks| == |sectors| && source[..] == Encode(x) + rest
    requires X.DisksAllowed(l, |sectors|) && |name| == NAME_SIZE && |version| == VERSION_LENGTH
    ensures ok == X.CreateSecond(sectors, l, stride, ExtentOf(x.devs[0])).Some?
    ensures ok ==> DevOk(d) && ExtentOf(d) == X.CreateSecond(sectors, l, stride, ExtentOf(x.devs[0])).value
    ensures ok ==> Created(d, |sectors|) && |d.maps| == if Migrating(l, |sectors|) then 2 else 1
    ensures ok ==>
      var existing := ExtentOf(x.devs[0]);
      IsPlanned(d, Plan(name, X.ArraySize(sectors, l, Some(existing)), l, |sectors|,
                        X.CreateSecond(sectors, l, stride, existing).value))
    ensures ok ==> fresh(image) && Begins(image[..], CreateSecond(x, d, version))
  {
    hide *;
    ShapeOfGood(x);
    ok, image, d := false, new byte[0], x.devs[0];
    var existing := FirstExtent(source, x, rest);
    var v;
    ok, v := PlanSecond(existing, sectors, name, l, stride);
    if ok {
      ghost var tail;
      image, tail := ExtendArea(source, x, rest);
      AllowedLength(v, l, |sectors|);
      d := AddVolumeTo(image, v, version, x, tail);
      NewDevExtent(tail, v);
      NewState(tail, v);
      NewIsCreated(tail, v);
      NewIsPlanned(tail, v);
    }
  }

  lemma NewIsPlanned(base: Octets, v: Volume)
    requires VolumeOk(v) && |base| >= VolumeLength(v)
    ensures IsPlanned(NewDev(base, v), v)
  {
  }

  lemma NewIsCreated(base: Octets, v: Volume)
    requires VolumeOk(v) && |base| >= VolumeLength(v)
    ensures Created(NewDev(base, v), v.disks)
  {
  }

  lemma ShapeOfGood(x: Isw)
    requires Good(x) && |x.devs| == 1
    ensures Shaped(x) && DevOk(x.devs[0])
  {
  }

  // A copy of the area with one more sector.
  method ExtendArea(source: array<byte>, ghost x: Isw, ghost rest: Octets)
    returns (image: array<byte>, ghost tail: Octets)
    requires Shaped(x) && source[..] == Encode(x) + rest
    ensures fresh(image) && image[..] == Encode(x) + tail && |tail| >= 512
  {
    hide Encode, Shaped;
    image := new byte[source.Length + 512](k => 0);
    Overwrite(image, 0, source[..]);
    tail := image[|Encode(x)|..];
    assert image[..] == Encode(x) + tail;
  }

  lemma AllowedLength(v: Volume, l: X.Level, n: nat)
    requires X.DisksAllowed(l, n) && v.disks == n && v.level == l
    ensures VolumeLength(v) <= 512

  {
  }

  // The extent of the volume that exists.
  method FirstExtent(source: array<byte>, ghost x: Isw, ghost rest: Octets) returns (e: X.Extent)
    requires Good(x) && |x.devs| == 1 && source[..] == Encode(x) + rest
    ensures DevOk(x.devs[0]) && e == ExtentOf(x.devs[0])
  {
    hide Encode, EncodeDev, EncodeDevs, DevOk, Good, ExtentOf;
    GoodParts(x);
    OkOfGood(x);
    var dev1 := FindRaiddev(source, 0, x, rest);
    VolumeHolds(x, rest, 0);
    e := ReadExtent(source, dev1, x.devs[0]);
  }

  // The new volume behind the image, and the new header.
  method AddVolumeTo(image: array<byte>, v: Volume, version: Octets, ghost x: Isw, ghost rest: Octets)
    returns (ghost d: Dev)
    requires Good(x) && |x.devs| == 1 && VolumeOk(v) && v.disks == |x.disks| && |version| == VERSION_LENGTH
    requires image[..] == Encode(x) + rest && |rest| >= VolumeLength(v)
    modifies image
    ensures d == NewDev(rest, v)
    ensures Begins(image[..], CreateSecond(x, d, version))
  {
    hide Encode, EncodeDev, EncodeDevs, EncodeDisks, DevOk, Good, NewDev, Number, Begins, Before;
    GoodParts(x);
    OkOfGood(x);
    EncodeCounts(x, rest);
    MoreDevsLater(x);
    EncodeHeader(x, rest);
    var dev2 := FindRaiddev(image, 1, x, rest);
    ghost var s := image[..];
    assert s[dev2..] == rest && s[..dev2] == Encode(x);
    var n;
    n, d := WriteDev(image, dev2, v);
    var size := SecondSize(image, dev2, n, x, rest, d, v);
    ghost var r := image[..];
    assert r == r[..dev2 + n] + r[dev2 + n..];
    CloseSecond(image, size, version, x, d, r[dev2 + n..]);
  }

  // The new length, from the old one and the number of disks.
  method SecondSize(image: array<byte>, dev2: nat, n: nat, ghost x: Isw, ghost rest: Octets, ghost d: Dev,
      ghost v: Volume)
    returns (size: nat)
    requires Ok(x) && |x.devs| == 1 && dev2 == |Encode(x)| && VolumeOk(v) && v.disks == |x.disks|
    requires |rest| >= VolumeLength(v) && d == NewDev(rest, v)
    requires n == DevLength(d) && dev2 + n <= image.Length && image[..dev2 + n] == Encode(x) + EncodeDev(d)
    ensures size == |Encode(x)| + DevLength(d)
  {
    hide Encode, EncodeDisks, EncodeDevs, Number, NewDev;
    EncodeCounts(x, rest);
    EncodeHeader(x, rest);
    StateOf(d);
    NewState(rest, v);
    ghost var s := image[..dev2 + n];
    EncodeCounts(x, EncodeDev(d));
    EncodeHeader(x, EncodeDev(d));
    assert image[MPB_SIZE..MPB_SIZE + 4] == Part(s, MPB_SIZE, 4);
    assert image[NUM_DISKS] == s[NUM_DISKS];
    assert image[dev2 + MIGR_STATE] == s[dev2 + MIGR_STATE] == EncodeDev(d)[MIGR_STATE];
    var disks: nat := image[NUM_DISKS];
    size := Number(image[MPB_SIZE..MPB_SIZE + 4]) + DEV_SIZE + 4 * (disks - 1);
    if image[dev2 + MIGR_STATE] == 1 {
      size := size + MAP_FIXED + 4 + 4 * (disks - 1);
    }
  }

  lemma StateOf(d: Dev)
    requires DevOk(d)
    ensures DevLength(d) > MIGR_STATE && EncodeDev(d)[MIGR_STATE] == d.head[MIGR_STATE] == |d.maps| - 1
  {
  }

  lemma NewState(base: Octets, v: Volume)
    requires VolumeOk(v) && |base| >= VolumeLength(v)
    ensures |NewDev(base, v).maps| == if Migrating(v.level, v.disks) then 2 else 1
  {
  }

  // The header and the last stores.
  method CloseSecond(image: array<byte>, size: nat, version: Octets, ghost x: Isw, ghost d: Dev, ghost tail: Octets)
    requires Good(x) && |x.devs| == 1 && DevOk(d) && |version| == VERSION_LENGTH
    requires image[..] == Encode(x) + EncodeDev(d) + tail && size == |Encode(x)| + DevLength(d)
    modifies image
    ensures Begins(image[..], CreateSecond(x, d, version))
  {
    hide EncodeDev, EncodeDevs, EncodeDisks, DevOk, Good, SecondHeader, NextGeneration, Image, DevLength, CreateSecond;
    GoodParts(x);
    OkOfGood(x);
    ghost var h, devs := SecondHeader(x.header, version), x.devs + [d];
    EncodeDevsConcat(x.devs, [d]);
    OneDev(d);
    ghost var body := EncodeDisks(x.disks) + EncodeDevs(devs) + tail;
    assert image[..] == x.header + body;
    StampSecond(image, version, x.header, body);
    SecondHeaderIs(x, d, version);
    CountsOfSecond(x.header, version, x);
    Finish(image, size, h, x.disks, devs, tail);
    ImageIs(NextGeneration(h), x.disks, devs);
  }

  lemma CountsOfSecond(h: Octets, version: Octets, x: Isw)
    requires Ok(x) && h == x.header && |x.devs| == 1 && |version| == VERSION_LENGTH
    ensures SecondHeader(h, version)[NUM_DISKS] == |x.disks| && SecondHeader(h, version)[NUM_RAID_DEVS] == 2
  {
    hide Less, Bytes, EncodeDevs, EncodeDisks, Number;
  }

  // The walk over the only volume ends with the image.
  lemma MoreDevsLater(x: Isw)
    requires Shaped(x) && |x.devs| == 1
    ensures |Before(x, 1)| == |Encode(x)|
  {
    assert x.devs[..1] == x.devs;
  }

  // ---------------------------------------------------------- removing one

  lemma RecordFields(d: Dev)
    requires DevOk(d)
    ensures DevLength(d) >= DEV_SIZE && EncodeDev(d)[MIGR_STATE] == |d.maps| - 1
    ensures EncodeDev(d)[HEAD_SIZE + NUM_MEMBERS] == Members(d)
    ensures EncodeDev(d)[HEAD_SIZE + RAID_LEVEL] == d.maps[0][RAID_LEVEL]
    ensures DevLength(d) == DEV_SIZE + 4 * (Members(d) - 1) + if |d.maps|
      == 2 then MAP_FIXED + 4 + 4 * (Members(d) - 1) else 0
  {
  }

  // The length of a volume record.
  method RecordSize(a: array<byte>, o: nat, ghost d: Dev) returns (size: nat)
    requires DevOk(d) && o + DevLength(d) <= a.Length && a[o..o + DevLength(d)] == EncodeDev(d)
    ensures size == DevLength(d)
  {
    hide DevLength, EncodeDev, Members, DevOk;
    RecordFields(d);
    ghost var r := a[o..o + DevLength(d)];
    assert a[o + HEAD_SIZE + NUM_MEMBERS] == r[HEAD_SIZE + NUM_MEMBERS] && a[o + MIGR_STATE] == r[MIGR_STATE];
    var members: nat := a[o + HEAD_SIZE + NUM_MEMBERS];
    MembersArePositive(d);
    size := DEV_SIZE + 4 * (members - 1);
    if a[o + MIGR_STATE] == 1 {
      size := size + MAP_FIXED + 4 + 4 * (members - 1);
    }
  }

  lemma MembersArePositive(d: Dev)
    requires DevOk(d)
    ensures Members(d) >= 1 && 1 <= |d.maps| <= 2
  {
  }

  // A lower version where the remaining volume allows it.
  method Downgrade(a: array<byte>, level: byte, members: nat, ghost h: Octets, ghost body: Octets, ghost d: Dev)
    requires |h| == IswLayout.HEADER_SIZE && a[..] == h + body
    requires DevOk(d) && level == d.maps[0][RAID_LEVEL] && members == Members(d)
    modifies a
    ensures a[..] == Downgraded(h, d) + body
  {
    hide DevOk;
    if level == ISW_T_RAID1 {
      Overwrite(a, VERSION, VERSION_RAID1);
    }
    if level == ISW_T_RAID0 && members < 3 {
      Overwrite(a, VERSION, VERSION_RAID0);
    }
  }

  // mpb_size and num_raid_devs of an image with one volume, and check_sum.
  method CloseOne(a: array<byte>, size: nat, ghost h: Octets, ghost disks: seq<Octets>, ghost d: Dev,
      ghost tail: Octets)
    requires Parts(h, disks, [d]) && h[NUM_DISKS] == |disks| && size == Size(disks, [d])
    requires a[..] == h + (EncodeDisks(disks) + EncodeDevs([d]) + tail)
    modifies a
    ensures Begins(a[..], Image(h, disks, [d]))
  {
    hide EncodeDisks, EncodeDevs, Size, Image, Bytes, DevOk;
    ghost var body := EncodeDisks(disks) + EncodeDevs([d]) + tail;
    Overwrite(a, MPB_SIZE, Bytes(size, 4));
    ghost var h1 := Put(h, MPB_SIZE, size, 4);
    SetVolumes(a, 1, h1, body);
    ghost var h2: Octets := h1[NUM_RAID_DEVS := 1];
    assert h2 == Counted(h, disks, [d]);
    StoreChecksum(a, h, disks, [d], tail);
    ImageIs(h, disks, [d]);
  }

  // The header and the disk table.
  method CopyTables(image: array<byte>, source: array<byte>, ghost x: Isw, ghost rest: Octets) returns (size: nat)
    requires image != source && Shaped(x) && source[..] == Encode(x) + rest && image.Length >= |Encode(x)|
    modifies image
    ensures size == IswLayout.HEADER_SIZE + DISK_SIZE * |x.disks| <= image.Length
    ensures image[..size] == x.header + EncodeDisks(x.disks)
  {
    hide Encode, EncodeDisks, EncodeDevs;
    EncodeHeader(x, rest);
    TablesOfImage(x, rest);
    TablesFit(x);
    size := IswLayout.HEADER_SIZE + DISK_SIZE * source[NUM_DISKS];
    Append(image, 0, source[..size]);
  }

  lemma TablesFit(x: Isw)
    requires Shaped(x)
    ensures IswLayout.HEADER_SIZE + DISK_SIZE * |x.disks| <= |Encode(x)|
  {
    hide EncodeDisks, EncodeDevs;
  }

  // The fields of the remaining volume that choose the version.
  method ReadLevel(a: array<byte>, dev: nat, ghost d: Dev) returns (level: byte, members: nat)
    requires DevOk(d) && dev + DevLength(d) <= a.Length && a[dev..dev + DevLength(d)] == EncodeDev(d)
    ensures level == d.maps[0][RAID_LEVEL] && members == Members(d)
  {
    hide DevLength, EncodeDev, Members;
    RecordFields(d);
    ghost var r := a[dev..dev + DevLength(d)];
    assert a[dev + HEAD_SIZE + RAID_LEVEL] == r[HEAD_SIZE + RAID_LEVEL];
    assert a[dev + HEAD_SIZE + NUM_MEMBERS] == r[HEAD_SIZE + NUM_MEMBERS];
    level, members := a[dev + HEAD_SIZE + RAID_LEVEL], a[dev + HEAD_SIZE + NUM_MEMBERS];
  }

  // The tables and the remaining volume.
  method CopyOne(image: array<byte>, source: array<byte>, keep: nat, ghost x: Isw, ghost rest: Octets)
    returns (size: nat, level: byte, members: nat)
    requires image != source && Shaped(x) && |x.devs| == 2 && keep < 2 && source[..] == Encode(x) + rest
    requires image.Length >= |Encode(x)|
    modifies image
    ensures DevOk(x.devs[keep]) && level == x.devs[keep].maps[0][RAID_LEVEL] && members == Members(x.devs[keep])
    ensures size == IswLayout.HEADER_SIZE + DISK_SIZE * |x.disks| + DevLength(x.devs[keep]) <= image.Length
    ensures image[..size] == x.header + EncodeDisks(x.disks) + EncodeDev(x.devs[keep])
  {
    hide Encode, EncodeDisks, EncodeDevs, EncodeDev, DevOk, Members, DevLength, Before;
    OneOfTwo(x, keep);
    size := CopyTables(image, source, x, rest);
    var dev := FindRaiddev(source, keep, x, rest);
    VolumeHolds(x, rest, keep);
    var devSize := RecordSize(source, dev, x.devs[keep]);
    Append(image, size, source[dev..dev + devSize]);
    level, members := ReadLevel(source, dev, x.devs[keep]);
    size := size + devSize;
  }

  // isw_remove_dev, given the volume that remains.
  method RemoveImage(source: array<byte>, keep: nat, ghost x: Isw, ghost rest: Octets) returns (image: array<byte>)
    requires Good(x) && |x.devs| == 2 && keep < 2 && source[..] == Encode(x) + rest
    ensures fresh(image) && Begins(image[..], RemoveVolume(x, keep))
  {
    hide Encode, EncodeDisks, EncodeDevs, EncodeDev, DevOk, Good, Downgraded, Begins, Image, Members, DevLength;
    GoodParts(x);
    OkOfGood(x);
    ghost var d := x.devs[keep];
    EncodeCounts(x, rest);
    EncodeHeader(x, rest);
    assert source[MPB_SIZE..MPB_SIZE + 4] == Part(source[..], MPB_SIZE, 4);
    var mpb := Number(source[MPB_SIZE..MPB_SIZE + 4]);
    image := new byte[((mpb + 511) / 512 + 1) * 512](k => 0);
    var size, level, members := CopyOne(image, source, keep, x, rest);
    ghost var tail := image[size..];
    ghost var body := EncodeDisks(x.disks) + EncodeDevs([d]) + tail;
    OneDev(d);
    assert image[..] == x.header + body;
    Downgrade(image, level, members, x.header, body, d);
    DowngradedCount(x.header, d);
    CloseOne(image, size, Downgraded(x.header, d), x.disks, d, tail);
  }

  lemma TablesOfImage(x: Isw, rest: Octets)
    requires Shaped(x)
    ensures var n := IswLayout.HEADER_SIZE + DISK_SIZE * |x.disks|;
      && n == |x.header + EncodeDisks(x.disks)| <= |Encode(x) + rest|
      && (Encode(x) + rest)[..n] == x.header + EncodeDisks(x.disks)
  {
    hide EncodeDisks, EncodeDevs;
  }

  lemma OneOfTwo(x: Isw, keep: nat)
    requires Shaped(x) && |x.devs| == 2 && keep < 2
    ensures IswLayout.HEADER_SIZE + DISK_SIZE * |x.disks| + DevLength(x.devs[keep]) <= |Encode(x)|
  {
    hide EncodeDisks, EncodeDev, DevOk, EncodeDevs;
    DevInImage(x.devs, keep);
  }

  lemma DowngradedCount(h: Octets, d: Dev)
    requires |h| == IswLayout.HEADER_SIZE && DevOk(d)
    ensures Downgraded(h, d)[NUM_DISKS] == h[NUM_DISKS]
  {
  }
}
