/** update_metadata and update_metadata_isw_dev of lib/format/ataraid/isw.c on
    byte buffers: a new image of two sectors, built behind running offsets. The
    bytes are those of StartRebuild, followed by the zeros of the new buffer.
 */
module IswStartRebuild {
  import opened Bits
  import opened ByteOrder
  import opened Buffers
  import opened IswLayout
  import opened IswEdits
  import IswRuns
  import opened IswRebuild
  import opened IswBytes

  const FAILED_DISK := 0x04
  const USABLE_DISK := 0x08

  function Nulls(n: nat): (r: Octets)
    ensures |r| == n && forall k :: 0 <= k < n ==> r[k] == 0
  {
    seq(n, k => 0)
  }

  // x &= ~bit and x |= bit, for a power of two
  function Without(x: nat, bit: nat): nat
    requires bit > 0
  {
    if x / bit % 2 == 1 && x >= bit then x - bit else x
  }

  function With(x: nat, bit: nat): nat
    requires bit > 0
  {
    if x / bit % 2 == 1 then x else x + bit
  }

  // ------------------------------------------------------- order table

  lemma {:induction false} OrderPrefix(m: nat, n: nat, disks: nat)
    requires m <= n
    ensures OrderTable(n, disks)[..4 * m] == OrderTable(m, disks)
  {
    if m < n {
      OrderPrefix(m, n - 1, disks);
      var t := OrderTable(n - 1, disks);
      assert OrderTable(n, disks)[..4 * m] == t[..4 * m];
    }
  }

  lemma {:induction false} OrderTail(m: nat, disks: nat)
    requires m >= disks
    ensures OrderTable(m, disks) == OrderTable(disks, disks) + Nulls(4 * (m - disks))
  {
    if m > disks {
      OrderTail(m - 1, disks);
    }
  }

  // One entry, in a buffer whose bytes from the second entry on are null.
  method StoreOrder(a: array<byte>, off: nat, i: nat)
    requires off + 4 * (i + 1) <= a.Length
    requires forall k :: off + 4 * i <= k < a.Length && off + 4 <= k ==> a[k] == 0
    modifies a
    ensures a[..off] == old(a[..off])
    ensures a[off..off + 4 * (i + 1)] == old(a[off..off + 4 * i]) + Bytes(i, 4)
    ensures forall k :: off + 4 * (i + 1) <= k < a.Length ==> a[k] == 0
  {
    hide Bytes;
    ghost var s := a[..];
    Overwrite(a, off + 4 * i, Bytes(i, 4));
    assert forall k :: 0 <= k < a.Length ==> a[k] == a[..][k] && s[k] == s[..][k];
    assert a[..off] == s[..off];
    assert a[off..off + 4 * i] == s[off..off + 4 * i];
    Joined(a[..], off, off + 4 * i, off + 4 * i + 4);
  }

  lemma OrderPart(s: Octets, off: nat, disks: nat, m: nat)
    requires off + 4 * disks <= |s| && off + 4 * m <= |s|
    requires s[off..off + 4 * disks] == OrderTable(disks, disks)
    requires forall k :: off + 4 * disks <= k < |s| ==> s[k] == 0
    ensures s[off..off + 4 * m] == OrderTable(m, disks)
  {
    hide OrderTable;
    if m <= disks {
      OrderPrefix(m, disks, disks);
      assert s[off..off + 4 * m] == s[off..off + 4 * disks][..4 * m];
    } else {
      OrderTail(m, disks);
      Joined(s, off, off + 4 * disks, off + 4 * m);
      assert s[off + 4 * disks..off + 4 * m] == Nulls(4 * (m - disks));
    }
  }

  // The loop that fills the table.
  method FillOrder(a: array<byte>, off: nat, disks: nat, ghost m: nat)
    requires disks >= 1 && m >= 1 && off + 4 * disks <= a.Length && off + 4 * m <= a.Length
    requires forall k :: off + 4 <= k < a.Length ==> a[k] == 0
    modifies a
    ensures a[..off] == old(a[..off]) && a[off..off + 4 * m] == OrderTable(m, disks)
    ensures forall k :: off + 4 * disks <= k < a.Length ==> a[k] == 0
  {
    hide Bytes, OrderTable;
    var i := 0;
    while i < disks
      invariant 0 <= i <= disks
      invariant a[..off] == old(a[..off])
      invariant a[off..off + 4 * i] == OrderTable(i, disks)
      invariant forall k :: off + 4 * i <= k < a.Length && off + 4 <= k ==> a[k] == 0
    {
      OrderNext(i, disks);
      StoreOrder(a, off, i);
      i := i + 1;
    }
    OrderPart(a[..], off, disks, m);
  }

  lemma OrderNext(i: nat, disks: nat)
    requires i < disks
    ensures OrderTable(i + 1, disks) == OrderTable(i, disks) + Bytes(i, 4)
  {
  }

  // --------------------------------------------------------- one volume

  // A volume record up to the order table of its first map.
  function NewHead(d: Dev, failed: byte): (r: Octets)
    requires DevOk(d)
    ensures |r| == HEAD_SIZE + MAP_FIXED && r[HEAD_SIZE + NUM_MEMBERS] == Members(d)
  {
    d.head[MIGR_STATE := 1][MIGR_TYPE := 1] + d.maps[0][..MAP_FIXED][MAP_STATE := 0][FAILED_DISK_NUM := failed]
  }

  lemma NewHeadAt(d: Dev, failed: byte)
    requires DevOk(d)
    ensures DevLength(d) >= DEV_SIZE
    ensures var s, r := EncodeDev(d)[..HEAD_SIZE + MAP_FIXED], NewHead(d, failed);
      && |s| == |r|
      && forall k :: 0 <= k < |r| ==> r[k] == if k == MIGR_STATE || k == MIGR_TYPE then 1
           else if k == HEAD_SIZE + MAP_STATE then 0 else if k == HEAD_SIZE + FAILED_DISK_NUM then failed else s[k]
  {
    assert EncodeDev(d)[..HEAD_SIZE + MAP_FIXED] == d.head + d.maps[0][..MAP_FIXED];
  }

  lemma StartDevBytes(d: Dev, failed: byte, disks: nat)
    requires DevOk(d)
    ensures DevLength(StartDev(d, failed, disks)) == HEAD_SIZE + 2 * MapSize(Members(d))
    ensures var head, order := NewHead(d, failed), OrderTable(Members(d), disks);
      EncodeDev(StartDev(d, failed, disks)) == head + order + (head[HEAD_SIZE..] + order)
  {
    hide OrderTable;
    var map0 := NewMap(d.maps[0], failed, disks);
    assert map0 == NewHead(d, failed)[HEAD_SIZE..] + OrderTable(Members(d), disks);
    assert EncodeDev(StartDev(d, failed, disks)) == d.head[MIGR_STATE := 1][MIGR_TYPE := 1] + map0 + map0;
  }

  // The copy of a volume of one map and one order entry, and the stores into it.
  method CopyDevHead(image: array<byte>, source: array<byte>, failed: byte, at: nat, from: nat, ghost d: Dev)
    requires image != source && DevOk(d)
    requires from + DevLength(d) <= source.Length && source[from..from + DevLength(d)] == EncodeDev(d)
    requires at + DEV_SIZE <= image.Length && forall k :: at <= k < image.Length ==> image[k] == 0
    modifies image
    ensures image[..at] == old(image[..at])
    ensures image[at..at + HEAD_SIZE + MAP_FIXED] == NewHead(d, failed)
    ensures forall k :: at + DEV_SIZE <= k < image.Length ==> image[k] == 0
  {
    hide EncodeDev, DevOk, NewHead, DevLength;
    NewHeadAt(d, failed);
    ghost var head := EncodeDev(d)[..HEAD_SIZE + MAP_FIXED];
    assert source[from..from + DEV_SIZE][..HEAD_SIZE + MAP_FIXED] == EncodeDev(d)[..HEAD_SIZE + MAP_FIXED];
    Overwrite(image, at, source[from..from + DEV_SIZE]);
    ghost var s := image[..];
    assert forall k :: 0 <= k < |head| ==> s[at + k] == head[k];
    assert forall k :: 0 <= k < image.Length ==> image[k] == s[k];
    image[at + MIGR_STATE] := 1;
    image[at + MIGR_TYPE] := 1;
    image[at + HEAD_SIZE + MAP_STATE] := 0;
    image[at + HEAD_SIZE + FAILED_DISK_NUM] := failed;
  }

  // The memcpy that makes the second map.
  method CopyMap(image: array<byte>, from: nat, mapSize: nat)
    requires from + 2 * mapSize <= image.Length
    modifies image
    ensures image[..from + mapSize] == old(image[..from + mapSize])
    ensures image[from + mapSize..from + 2 * mapSize] == old(image[from..from + mapSize])
    ensures forall k :: from + 2 * mapSize <= k < image.Length ==> image[k] == old(image[k])
  {
    ghost var s := image[..];
    Overwrite(image, from + mapSize, image[from..from + mapSize]);
    ghost var r := image[..];
    assert forall k :: 0 <= k < image.Length ==> image[k] == r[k];
    assert r[..from + mapSize] == s[..from + mapSize];
  }

  // The order table of the first map, and the second map.
  method FillMaps(image: array<byte>, at: nat, failed: byte, disks: nat, ghost d: Dev) returns (len: nat)
    requires DevOk(d) && 1 <= disks <= 2 * Members(d) + 12
    requires at + HEAD_SIZE + 2 * MapSize(Members(d)) <= image.Length
    requires image[at..at + HEAD_SIZE + MAP_FIXED] == NewHead(d, failed)
    requires forall k :: at + DEV_SIZE <= k < image.Length ==> image[k] == 0
    modifies image
    ensures len == DevLength(StartDev(d, failed, disks)) && at + len <= image.Length
    ensures image[..at] == old(image[..at])
    ensures image[at..at + len] == EncodeDev(StartDev(d, failed, disks))
    ensures forall k :: at + len <= k < image.Length ==> image[k] == 0
  {
    hide EncodeDev, DevOk, NewHead, OrderTable, StartDev, Members, DevLength;
    MembersIsPositive(d);
    StartDevBytes(d, failed, disks);
    ghost var s0 := image[..];
    ghost var head, order := NewHead(d, failed), OrderTable(Members(d), disks);
    var off := at + HEAD_SIZE + MAP_FIXED;
    assert head == s0[..off][at..];
    FillOrder(image, off, disks, Members(d));
    ghost var s := image[..];
    assert s[at..off] == s[..off][at..] == head;
    assert s[..at] == s[..off][..at] == s0[..at];
    assert image[at + HEAD_SIZE + NUM_MEMBERS] == s[at..off][HEAD_SIZE + NUM_MEMBERS];
    var members: nat := image[at + HEAD_SIZE + NUM_MEMBERS];
    var mapSize := MAP_FIXED + 4 + (members - 1) * 4;
    CopyMap(image, at + HEAD_SIZE, mapSize);
    len := HEAD_SIZE + 2 * mapSize;
    TwoMaps(s, image[..], at, mapSize, head, order);
  }

  lemma TwoMaps(s: Octets, r: Octets, at: nat, mapSize: nat, head: Octets, order: Octets)
    requires |head| == HEAD_SIZE + MAP_FIXED && |order| + MAP_FIXED == mapSize
    requires at + HEAD_SIZE + 2 * mapSize <= |s| == |r|
    requires s[at..at + |head|] == head && s[at + |head|..at + |head| + |order|] == order
    requires r[..at + HEAD_SIZE + mapSize] == s[..at + HEAD_SIZE + mapSize]
    requires r[at + HEAD_SIZE + mapSize..at + HEAD_SIZE + 2 * mapSize] == s[at + HEAD_SIZE..at + HEAD_SIZE + mapSize]
    ensures r[..at] == s[..at]
    ensures r[at..at + HEAD_SIZE + 2 * mapSize] == head + order + (head[HEAD_SIZE..] + order)
  {
    var mid, end := at + HEAD_SIZE + mapSize, at + HEAD_SIZE + 2 * mapSize;
    SliceOfPrefix(r, mid, 0, at);
    SliceOfPrefix(s, mid, 0, at);
    SliceOfPrefix(r, mid, at, mid);
    SliceOfPrefix(s, mid, at, mid);
    Joined(s, at, at + |head|, mid);
    assert s[at..mid] == head + order;
    assert s[at + HEAD_SIZE..mid] == s[at..mid][HEAD_SIZE..] == head[HEAD_SIZE..] + order;
    Joined(r, at, mid, end);
  }

  lemma Joined(s: Octets, a: nat, b: nat, c: nat)
    requires a <= b <= c <= |s|
    ensures s[a..c] == s[a..b] + s[b..c]
  {
  }

  lemma MembersIsPositive(d: Dev)
    requires DevOk(d)
    ensures Members(d) >= 1
  {
  }

  // The copy of the volume behind the new image, and the walk to it.
  method CopyDev(image: array<byte>, failed: byte, source: array<byte>, idx: nat, offs: nat,
                 ghost x: Isw, ghost rest: Octets, ghost y: Isw) returns (dev: nat, disks: nat)
    requires image != source
    requires Shaped(x) && idx < |x.devs| && source[..] == Encode(x) + rest
    requires Shaped(y) && idx == |y.devs| && |y.disks| == |x.disks| + 1
    requires offs == |EncodeDevs(y.devs)|
    requires |Encode(y)| + DEV_SIZE <= image.Length
    requires image[..|Encode(y)|] == Encode(y) && forall k :: |Encode(y)| <= k < image.Length ==> image[k] == 0
    modifies image
    ensures dev == |Encode(y)| && disks == |x.disks| && DevOk(x.devs[idx])
    ensures image[..dev] == Encode(y) && image[dev..dev + HEAD_SIZE + MAP_FIXED] == NewHead(x.devs[idx], failed)
    ensures forall k :: dev + DEV_SIZE <= k < image.Length ==> image[k] == 0
  {
    hide Encode, EncodeDev, EncodeDevs, Members, NewHead, DevLength, DevOk, Before;
    HeaderOfImage(y);
    var from := FindRaiddev(source, idx, x, rest);
    VolumeHolds(x, rest, idx);
    assert image[NUM_DISKS] == image[..|Encode(y)|][NUM_DISKS];
    var at := IswLayout.HEADER_SIZE + DISK_SIZE * image[NUM_DISKS] + offs;
    CopyDevHead(image, source, failed, at, from, x.devs[idx]);
    assert image[..] == Encode(y) + image[at..];
    dev := FindRaiddev(image, idx, y, image[at..]);
    disks := image[NUM_DISKS] - 1;
  }

  // update_metadata_isw_dev; the store of the second map's state misses the image.
  method UpdateDev(image: array<byte>, failed: byte, source: array<byte>, idx: nat, offs: nat,
                   ghost x: Isw, ghost rest: Octets, ghost y: Isw) returns (len: nat)
    requires image != source
    requires Shaped(x) && idx < |x.devs| && source[..] == Encode(x) + rest
    requires Shaped(y) && idx == |y.devs| && |y.disks| == |x.disks| + 1
    requires offs == |EncodeDevs(y.devs)| && 1 <= |x.disks| <= 2 * Members(x.devs[idx]) + 12
    requires |Encode(y)| + HEAD_SIZE + 2 * MapSize(Members(x.devs[idx])) <= image.Length
    requires image[..|Encode(y)|] == Encode(y) && forall k :: |Encode(y)| <= k < image.Length ==> image[k] == 0
    modifies image
    ensures len == DevLength(StartDev(x.devs[idx], failed, |x.disks|)) && |Encode(y)| + len <= image.Length
    ensures image[..|Encode(y)| + len] == Encode(y) + EncodeDev(StartDev(x.devs[idx], failed, |x.disks|))
    ensures forall k :: |Encode(y)| + len <= k < image.Length ==> image[k] == 0
  {
    hide Encode, EncodeDev, EncodeDevs, Members, NewHead, DevLength, StartDev, DevOk, Before, Shaped;
    var at, disks := CopyDev(image, failed, source, idx, offs, x, rest, y);
    len := FillMaps(image, at, failed, disks, x.devs[idx]);
    assert image[..at + len] == image[..at] + image[at..at + len];
  }

  lemma HeaderOfImage(y: Isw)
    requires Shaped(y)
    ensures |Encode(y)| == IswLayout.HEADER_SIZE + DISK_SIZE * |y.disks| + |EncodeDevs(y.devs)|
    ensures Encode(y)[NUM_DISKS] == |y.disks| && |Before(y, |y.devs|)| == |Encode(y)|
  {
    hide EncodeDevs, EncodeDisks;
    assert y.devs[..|y.devs|] == y.devs;
  }

  // --------------------------------------------------------- the disk table

  // The failed disk, marked in the old image.
  function FailedDisk(disk: Octets): (r: Octets)
    requires |disk| == DISK_SIZE
    ensures |r| == DISK_SIZE
  {
    var status := With(Without(Number(Part(disk, DISK_STATUS, 4)), USABLE_DISK), FAILED_DISK);
    Put(Put(disk, DISK_SCSI_ID, UNKNOWN_SCSI_ID, 4), DISK_STATUS, status, 4)
  }

  lemma BitThreeCleared(q: nat, r: nat)
    requires r < 16
    ensures Without(16 * q + r, USABLE_DISK) == 16 * q + r % 8
  {
    assert (16 * q + r) / 8 == 2 * q + r / 8;
  }

  lemma BitTwoSet(q: nat, r: nat)
    requires r < 8
    ensures With(16 * q + r, FAILED_DISK) == 16 * q + 4 + r % 4
  {
    var high, low := 4 * q, r / 4;
    assert (16 * q + r) / 4 == high + low && high == 2 * (2 * q) && low < 2;
    assert r == 4 * low + r % 4;
  }

  lemma SplitStatus(q: nat, middle: nat, low: nat)
    requires middle < 4 && low < 4
    ensures var t := 16 * q + 4 * middle + low; t % 4 == low && t / 4 % 4 == middle && t / 16 == q
  {
    assert (16 * q + 4 * middle + low) / 4 == 4 * q + middle;
  }

  lemma BitsOfStatus(status: nat)
    ensures var t := With(Without(status, USABLE_DISK), FAILED_DISK);
      t % 4 == status % 4 && t / 4 % 4 == 1 && t / 16 == status / 16
  {
    hide With, Without;
    var q, r := status / 16, status % 16;
    assert r == 4 * (r / 4) + r % 4 && r % 8 % 4 == r % 4;
    BitThreeCleared(q, r);
    BitTwoSet(q, r % 8);
    SplitStatus(q, 1, r % 4);
    SplitStatus(q, r / 4, r % 4);
  }

  /** The mark: bit 2 of the status is set and bit 3 is clear, and the other bits are the same. */
  lemma FailedDiskStatus(disk: Octets)
    requires |disk| == DISK_SIZE
    ensures var s, t := Number(Part(disk, DISK_STATUS, 4)), Number(Part(FailedDisk(disk), DISK_STATUS, 4));
      t % 4 == s % 4 && t / 4 % 4 == 1 && t / 16 == s / 16
  {
    hide Number, Bytes, With, Without;
    var a, s := Put(disk, DISK_SCSI_ID, UNKNOWN_SCSI_ID, 4), Number(Part(disk, DISK_STATUS, 4));
    var t := With(Without(s, USABLE_DISK), FAILED_DISK);
    BitsOfStatus(s);
    Number4(Part(disk, DISK_STATUS, 4));
    NumberOfU32(t);
    PartOfSplice(a, DISK_STATUS, Bytes(t, 4));
  }

  function DiskAt(i: nat): nat {
    IswLayout.HEADER_SIZE + DISK_SIZE * i
  }

  // The image with one disk replaced.
  lemma ReplacedDisk(x: Isw, rest: Octets, f: nat, disk: Octets)
    requires Shaped(x) && f < |x.disks| && |disk| == DISK_SIZE
    ensures Shaped(x.(disks := x.disks[f := disk])) && DiskAt(f) + DISK_SIZE <= |Encode(x) + rest|
    ensures Part(Encode(x) + rest, DiskAt(f), DISK_SIZE) == x.disks[f]
    ensures Splice(Encode(x) + rest, DiskAt(f), disk) == Encode(x.(disks := x.disks[f := disk])) + rest
  {
    hide EncodeDisks, EncodeDevs;
    var disks := x.disks[f := disk];
    DiskInTable(x.disks, f);
    DiskInTable(disks, f);
    assert disks[..f] == x.disks[..f] && disks[f + 1..] == x.disks[f + 1..];
    var pre, post := x.header + EncodeDisks(x.disks[..f]), EncodeDisks(x.disks[f + 1..]) + EncodeDevs(x.devs) + rest;
    assert Encode(x) + rest == pre + x.disks[f] + post;
    assert Encode(x.(disks := disks)) + rest == pre + disk + post;
    assert Splice(pre + x.disks[f] + post, |pre|, disk) == pre + disk + post;
  }

  lemma DiskLength(x: Isw, f: nat)
    requires Shaped(x) && f < |x.disks|
    ensures |x.disks[f]| == DISK_SIZE && DisksOk(x.disks) && |x.header| == IswLayout.HEADER_SIZE
    ensures x.header[NUM_DISKS] == |x.disks|
  {
  }

  // A store into a disk of the old image.
  method StoreInDisk(source: array<byte>, at: nat, off: nat, t: Octets)
    requires at + DISK_SIZE <= source.Length && off + |t| <= DISK_SIZE
    modifies source
    ensures source[..] == old(Splice(source[..], at, Splice(Part(source[..], at, DISK_SIZE), off, t)))
    ensures Part(source[..], at, DISK_SIZE) == old(Splice(Part(source[..], at, DISK_SIZE), off, t))
  {
    ghost var s := source[..];
    Overwrite(source, at + off, t);
    PartOfSplice(s, at, Splice(Part(s, at, DISK_SIZE), off, t));
  }

  // The failed disk is marked as not usable.
  method MarkFailed(source: array<byte>, f: nat, ghost x: Isw, ghost rest: Octets)
    requires Shaped(x) && f < |x.disks| && source[..] == Encode(x) + rest
    modifies source
    ensures Shaped(x.(disks := x.disks[f := FailedDisk(x.disks[f])]))
    ensures source[..] == Encode(x.(disks := x.disks[f := FailedDisk(x.disks[f])])) + rest
  {
    hide Encode, Shaped, Number, Bytes, With, Without, Splice;
    ghost var s, disk := source[..], x.disks[f];
    DiskLength(x, f);
    ReplacedDisk(x, rest, f, disk);
    ReplacedDisk(x, rest, f, FailedDisk(disk));
    var at := DiskAt(f);
    StoreInDisk(source, at, DISK_SCSI_ID, Bytes(UNKNOWN_SCSI_ID, 4));
    ghost var d1 := Put(disk, DISK_SCSI_ID, UNKNOWN_SCSI_ID, 4);
    StatusUnchanged(disk, source[..], at);
    var status := With(Without(Number(source[at + DISK_STATUS..at + DISK_STATUS + 4]), USABLE_DISK), FAILED_DISK);
    StoreInDisk(source, at, DISK_STATUS, Bytes(status, 4));
    SpliceTwice(s, at, d1, FailedDisk(disk));
  }

  lemma StatusUnchanged(disk: Octets, s: Octets, at: nat)
    requires |disk| == DISK_SIZE && at + DISK_SIZE <= |s|
    requires Part(s, at, DISK_SIZE) == Put(disk, DISK_SCSI_ID, UNKNOWN_SCSI_ID, 4)
    ensures s[at + DISK_STATUS..at + DISK_STATUS + 4] == Part(disk, DISK_STATUS, 4)
  {
    hide Bytes;
    PartOfPart(s, at, DISK_SIZE, DISK_STATUS, 4);
  }

  // One entry of the new table.
  method CopyDisk(image: array<byte>, source: array<byte>, i: nat, f: nat, newDisk: Octets, ghost x: Isw,
      ghost rest: Octets)
    requires image != source && Shaped(x) && i < |x.disks| && |newDisk| == DISK_SIZE
    requires source[..] == Encode(x) + rest && DiskAt(|x.disks|) <= image.Length
    modifies image
    ensures image[..DiskAt(i + 1)] == old(image[..DiskAt(i)]) + if i == f then newDisk else x.disks[i]
    ensures image[DiskAt(|x.disks|)..] == old(image[DiskAt(|x.disks|)..])
  {
    hide Encode, Shaped;
    DiskLength(x, i);
    ReplacedDisk(x, rest, i, newDisk);
    assert source[DiskAt(i)..DiskAt(i) + DISK_SIZE] == Part(source[..], DiskAt(i), DISK_SIZE);
    ghost var s := image[..];
    Append(image, DiskAt(i), if i == f then newDisk else source[DiskAt(i)..DiskAt(i) + DISK_SIZE]);
    KeepTail(s, image[..], DiskAt(i + 1), DiskAt(|x.disks|));
  }

  // The entries of the new table.
  method CopyDiskTable(image: array<byte>, source: array<byte>, f: nat, newDisk: Octets, ghost x: Isw,
      ghost rest: Octets)
    requires image != source && Shaped(x) && f < |x.disks| && |newDisk| == DISK_SIZE
    requires source[..] == Encode(x) + rest && DiskAt(|x.disks|) <= image.Length
    requires image[..IswLayout.HEADER_SIZE] == x.header
    modifies image
    ensures image[..DiskAt(|x.disks|)] == x.header + EncodeDisks(x.disks[f := newDisk])
    ensures image[DiskAt(|x.disks|)..] == old(image[DiskAt(|x.disks|)..])
  {
    hide *;
    DiskLength(x, f);
    EncodeHeader(x, rest);
    ghost var disks, n := x.disks[f := newDisk], |x.disks|;
    DisksStay(x.disks, f, newDisk);
    var i := 0;
    StartsAt(n);
    while i < source[NUM_DISKS]
      invariant 0 <= i <= n && source[..] == Encode(x) + rest && DiskAt(i) <= image.Length
      invariant image[..DiskAt(i)] == x.header + EncodeDisks(disks[..i])
      invariant image[DiskAt(n)..] == old(image[DiskAt(n)..])
    {
      DiskLength(x, i);
      NextDisk(disks, i);
      DiskBefore(i, n);
      CopyDisk(image, source, i, f, newDisk, x, rest);
      i := i + 1;
    }
    assert disks[..n] == disks;
  }

  lemma DisksStay(disks: seq<Octets>, f: nat, newDisk: Octets)
    requires DisksOk(disks) && f < |disks| && |newDisk| == DISK_SIZE
    ensures DisksOk(disks[f := newDisk])
    ensures forall i {:trigger disks[f := newDisk][..i]} :: 0 <= i <= |disks| ==> DisksOk(disks[f := newDisk][..i])
  {
  }

  lemma StartsAt(n: nat)
    ensures DiskAt(0) == IswLayout.HEADER_SIZE <= DiskAt(n)
  {
  }

  lemma DiskBefore(i: nat, n: nat)
    requires i < n
    ensures DiskAt(i) < DiskAt(i + 1) <= DiskAt(n)
  {
  }

  // The header of the new image.
  method CopyHeader(image: array<byte>, source: array<byte>, ghost x: Isw, ghost rest: Octets)
    requires image != source && Shaped(x) && source[..] == Encode(x) + rest && IswLayout.HEADER_SIZE <= image.Length
    modifies image
    ensures image[..IswLayout.HEADER_SIZE] == x.header
    ensures image[IswLayout.HEADER_SIZE..] == old(image[IswLayout.HEADER_SIZE..])
  {
    hide Encode, Shaped;
    HeaderBytes(x, rest);
    Append(image, 0, source[..IswLayout.HEADER_SIZE]);
  }

  lemma HeaderBytes(x: Isw, rest: Octets)
    requires Shaped(x)
    ensures |Encode(x) + rest| >= IswLayout.HEADER_SIZE && (Encode(x) + rest)[..IswLayout.HEADER_SIZE] == x.header
  {
    hide EncodeDisks, EncodeDevs;
  }

  // num_disks++
  method CountDisk(image: array<byte>, n: nat, end: nat)
    requires IswLayout.HEADER_SIZE <= end <= image.Length && n < 255 && image[NUM_DISKS] == n
    modifies image
    ensures image[..end] == old(image[..end][NUM_DISKS := n + 1]) && image[end..] == old(image[end..])
  {
    ghost var r := image[..];
    image[NUM_DISKS] := n + 1;
    assert forall k :: 0 <= k < image.Length && k != NUM_DISKS ==> image[k] == r[k];
  }

  // The failed disk behind the table.
  method CopyFailed(image: array<byte>, source: array<byte>, f: nat, n: nat, ghost x: Isw, ghost rest: Octets)
    requires image != source && Shaped(x) && f < |x.disks| && source[..] == Encode(x) + rest
    requires DiskAt(n + 1) <= image.Length
    modifies image
    ensures image[..DiskAt(n + 1)] == old(image[..DiskAt(n)]) + Put(x.disks[f], DISK_STATUS, CONFIGURED_DISK, 4)
    ensures image[DiskAt(n + 1)..] == old(image[DiskAt(n + 1)..])
  {
    hide Encode, Shaped, Bytes;
    DiskLength(x, f);
    ReplacedDisk(x, rest, f, x.disks[f]);
    assert source[DiskAt(f)..DiskAt(f) + DISK_SIZE] == Part(source[..], DiskAt(f), DISK_SIZE);
    ghost var pre := image[..DiskAt(n)];
    Append(image, DiskAt(n), source[DiskAt(f)..DiskAt(f) + DISK_SIZE]);
    ghost var s := image[..];
    Overwrite(image, DiskAt(n) + DISK_STATUS, Bytes(CONFIGURED_DISK, 4));
    StatusOfLast(s, pre, x.disks[f], Bytes(CONFIGURED_DISK, 4));
  }

  lemma StatusOfLast(s: Octets, pre: Octets, disk: Octets, status: Octets)
    requires |disk| == DISK_SIZE && |status| == 4 && |pre| + DISK_SIZE <= |s| && s[..|pre| + DISK_SIZE] == pre + disk
    ensures var r, n := Splice(s, |pre| + DISK_STATUS, status), |pre| + DISK_SIZE;
      r[..n] == pre + Splice(disk, DISK_STATUS, status) && r[n..] == s[n..]
  {
    var r, n := Splice(s, |pre| + DISK_STATUS, status), |pre| + DISK_SIZE;
    assert s == pre + disk + s[n..];
    assert r == pre + Splice(disk, DISK_STATUS, status) + s[n..];
  }

  // The failed disk and the new count.
  method AddFailed(image: array<byte>, source: array<byte>, f: nat, ghost x: Isw, ghost rest: Octets,
                   ghost h: Octets, ghost disks: seq<Octets>)
    requires image != source && Shaped(x) && f < |x.disks| < 255 && source[..] == Encode(x) + rest
    requires |h| == IswLayout.HEADER_SIZE && h[NUM_DISKS] == |x.disks| == |disks| && DisksOk(disks)
    requires DiskAt(|disks| + 1) <= image.Length && image[..DiskAt(|disks|)] == h + EncodeDisks(disks)
    modifies image
    ensures image[..DiskAt(|disks| + 1)]
         == h[NUM_DISKS := |disks| + 1] + EncodeDisks(disks + [Put(x.disks[f], DISK_STATUS, CONFIGURED_DISK, 4)])
    ensures image[DiskAt(|disks| + 1)..] == old(image[DiskAt(|disks| + 1)..])
  {
    hide Encode, Shaped, EncodeDisks, Bytes, Splice;
    DiskLength(x, f);
    ghost var failed := Put(x.disks[f], DISK_STATUS, CONFIGURED_DISK, 4);
    assert image[NUM_DISKS] == image[..DiskAt(|disks|)][NUM_DISKS];
    var n: nat := image[NUM_DISKS];
    CopyFailed(image, source, f, n, x, rest);
    assert image[NUM_DISKS] == image[..DiskAt(n + 1)][NUM_DISKS];
    CountDisk(image, n, DiskAt(n + 1));
    CountedTable(h, disks, failed);
  }

  lemma CountedTable(h: Octets, disks: seq<Octets>, failed: Octets)
    requires |h| == IswLayout.HEADER_SIZE && DisksOk(disks) && |failed| == DISK_SIZE && |disks| < 255
    ensures var t: Octets := h + EncodeDisks(disks) + failed;
      t[NUM_DISKS := |disks| + 1] == h[NUM_DISKS := |disks| + 1] + EncodeDisks(disks + [failed])
  {
    hide EncodeDisks;
    DisksConcat(disks, [failed]);
    OneDisk(failed);
  }

  // ------------------------------------------------------------ the image

  lemma FailedEntryIs(disk: Octets)
    requires |disk| == DISK_SIZE
    ensures FailedEntry(disk) == Put(FailedDisk(disk), DISK_STATUS, CONFIGURED_DISK, 4)
  {
    hide With, Without, Number, Bytes;
    var d := Put(disk, DISK_SCSI_ID, UNKNOWN_SCSI_ID, 4);
    var status := With(Without(Number(Part(disk, DISK_STATUS, 4)), USABLE_DISK), FAILED_DISK);
    SpliceTwice(d, DISK_STATUS, Bytes(status, 4), Bytes(CONFIGURED_DISK, 4));
  }

  // The new image holds its pieces, followed by nulls.
  ghost predicate Holds(s: Octets, y: Isw)
    requires Shaped(y)
  {
    |Encode(y)| <= |s| && s[..|Encode(y)|] == Encode(y) && forall k :: |Encode(y)| <= k < |s| ==> s[k] == 0
  }

  // One more volume in the new image.
  method AddDev(image: array<byte>, failed: byte, source: array<byte>, idx: nat, offs: nat,
                ghost x: Isw, ghost rest: Octets, ghost y: Isw) returns (len: nat)
    requires image != source
    requires Shaped(x) && idx < |x.devs| && source[..] == Encode(x) + rest
    requires Shaped(y) && idx == |y.devs| && |y.disks| == |x.disks| + 1
    requires offs == |EncodeDevs(y.devs)| && 1 <= |x.disks| <= 2 * Members(x.devs[idx]) + 12
    requires |Encode(y)| + HEAD_SIZE + 2 * MapSize(Members(x.devs[idx])) <= image.Length
    requires Holds(image[..], y)
    modifies image
    ensures var devs := y.devs + [StartDev(x.devs[idx], failed, |x.disks|)];
      Shaped(y.(devs := devs)) && Holds(image[..], y.(devs := devs)) && offs + len == |EncodeDevs(devs)|
  {
    hide Encode, EncodeDev, EncodeDevs, DevOk, StartDev, Members;
    ghost var d := StartDev(x.devs[idx], failed, |x.disks|);
    assert image[..|Encode(y)|] == image[..][..|Encode(y)|];
    len := UpdateDev(image, failed, source, idx, offs, x, rest, y);
    MoreDevs(y, d);
  }

  lemma MoreDevs(y: Isw, d: Dev)
    requires Shaped(y) && DevOk(d)
    ensures Shaped(y.(devs := y.devs + [d])) && Encode(y.(devs := y.devs + [d])) == Encode(y) + EncodeDev(d)
    ensures EncodeDevs(y.devs + [d]) == EncodeDevs(y.devs) + EncodeDev(d)
  {
    hide EncodeDisks, EncodeDevs, EncodeDev, DevOk;
    EncodeDevsConcat(y.devs, [d]);
    OneDev(d);
  }

  // What the buffer of two sectors must hold.
  predicate FitsBuffer(x: Isw, f: nat, newDisk: Octets)
    requires CanStart(x, f) && |newDisk| == DISK_SIZE
  {
    && (forall v :: 0 <= v < |x.devs| ==> |x.disks| <= 2 * Members(x.devs[v]) + 12)
    && Size(x.disks + [newDisk], StartDevs(x.devs, f, |x.disks|)) <= IMAGE_BUFFER
  }

  // The pieces of the new image.
  function StartHeader(x: Isw): (h: Octets)
    requires Good(x) && |x.disks| < 255
    ensures |h| == IswLayout.HEADER_SIZE && h[NUM_DISKS] == |x.disks| + 1 && h[NUM_RAID_DEVS] == |x.devs|
  {
    x.header[NUM_DISKS := |x.disks| + 1]
  }

  function StartDisks(x: Isw, f: nat, newDisk: Octets): (r: seq<Octets>)
    requires Good(x) && f < |x.disks| && |newDisk| == DISK_SIZE
    ensures DisksOk(r) && |r| == |x.disks| + 1
  {
    x.disks[f := newDisk] + [FailedEntry(x.disks[f])]
  }

  // Everything before the volumes.
  method StartTables(image: array<byte>, source: array<byte>, f: nat, newDisk: Octets, ghost x: Isw, ghost rest: Octets)
    requires image != source && CanStart(x, f) && |newDisk| == DISK_SIZE && source[..] == Encode(x) + rest
    requires DiskAt(|x.disks| + 1) <= image.Length && forall k :: 0 <= k < image.Length ==> image[k] == 0
    modifies image, source
    ensures Shaped(Marked(x, f)) && source[..] == Encode(Marked(x, f)) + rest
    ensures Shaped(Isw(StartHeader(x), StartDisks(x, f, newDisk), []))
    ensures Holds(image[..], Isw(StartHeader(x), StartDisks(x, f, newDisk), []))
  {
    hide Encode, EncodeDisks, EncodeDevs, Good, FailedDisk, FailedEntry, DevOk;
    IswRuns.GoodParts(x);
    OkOfGood(x);
    ghost var s := image[..];
    MarkFailed(source, f, x, rest);
    CopyHeader(image, source, Marked(x, f), rest);
    ghost var n := |x.disks|;
    KeepTail(s, image[..], IswLayout.HEADER_SIZE, DiskAt(n));
    CopyDiskTable(image, source, f, newDisk, Marked(x, f), rest);
    ghost var s1 := image[..];
    assert s1[DiskAt(n)..] == s[DiskAt(n)..];
    assert Marked(x, f).disks[f := newDisk] == x.disks[f := newDisk];
    AddFailed(image, source, f, Marked(x, f), rest, x.header, x.disks[f := newDisk]);
    FailedEntryIs(x.disks[f]);
    KeepTail(s, s1, DiskAt(n), DiskAt(n + 1));
    TablesAre(StartHeader(x), StartDisks(x, f, newDisk), s, image[..]);
  }

  // The old image with the failed disk marked.
  ghost function Marked(x: Isw, f: nat): Isw
    requires DisksOk(x.disks) && f < |x.disks|
  {
    x.(disks := x.disks[f := FailedDisk(x.disks[f])])
  }

  lemma TablesAre(h: Octets, disks: seq<Octets>, s: Octets, r: Octets)
    requires |h| == IswLayout.HEADER_SIZE && DisksOk(disks) && h[NUM_DISKS] == |disks|
    requires |s| == |r| >= DiskAt(|disks|) && r[..DiskAt(|disks|)] == h + EncodeDisks(disks)
    requires r[DiskAt(|disks|)..] == s[DiskAt(|disks|)..] && forall k :: 0 <= k < |s| ==> s[k] == 0
    ensures Shaped(Isw(h, disks, [])) && Holds(r, Isw(h, disks, []))
  {
    hide EncodeDisks;
    var n := DiskAt(|disks|);
    assert Encode(Isw(h, disks, [])) == h + EncodeDisks(disks);
    forall k | n <= k < |r| ensures r[k] == 0 {
      assert r[k] == r[n..][k - n] == s[k];
    }
  }

  // The volumes, behind the tables.
  method AddDevs(image: array<byte>, source: array<byte>, f: byte, ghost x: Isw, ghost rest: Octets,
                 ghost h: Octets, ghost disks: seq<Octets>) returns (offs: nat)
    requires image != source && image.Length == IMAGE_BUFFER && 1 <= |x.devs| <= 2 && 1 <= |x.disks| && f < |x.disks|
    requires Shaped(x) && source[..] == Encode(x) + rest && x.header[NUM_RAID_DEVS] == |x.devs|
    requires Shaped(Isw(h, disks, [])) && Holds(image[..], Isw(h, disks, [])) && |disks| == |x.disks| + 1
    requires forall v :: 0 <= v < |x.devs| ==> |x.disks| <= 2 * Members(x.devs[v]) + 12
    requires Size(disks, StartDevs(x.devs, f, |x.disks|)) <= IMAGE_BUFFER
    modifies image
    ensures var devs := StartDevs(x.devs, f, |x.disks|);
      Shaped(Isw(h, disks, devs)) && Holds(image[..], Isw(h, disks, devs)) && offs == |EncodeDevs(devs)|
  {
    hide Encode, EncodeDisks, EncodeDevs, DevOk, StartDev, Members, Holds, StartDevs, Shaped;
    DiskLength(x, f);
    ShapedDevs(x);
    Fits(x, f, |disks|);
    EncodeNoDevs(h, disks);
    HeaderBytes(x, rest);
    ghost var d0 := StartDev(x.devs[0], f, |x.disks|);
    offs := AddDev(image, f, source, 0, 0, x, rest, Isw(h, disks, []));
    assert [] + [d0] == [d0];
    assert source[NUM_RAID_DEVS] == source[..][..IswLayout.HEADER_SIZE][NUM_RAID_DEVS];
    if source[NUM_RAID_DEVS] > 1 {
      MoreDevs(Isw(h, disks, []), d0);
      var len := AddDev(image, f, source, 1, offs, x, rest, Isw(h, disks, [d0]));
      offs := offs + len;
      assert [d0] + [StartDev(x.devs[1], f, |x.disks|)] == [d0, StartDev(x.devs[1], f, |x.disks|)];
    }
  }

  lemma ShapedDevs(x: Isw)
    requires Shaped(x)
    ensures DevsOk(x.devs)
  {
  }

  lemma EncodeNoDevs(h: Octets, disks: seq<Octets>)
    requires Shaped(Isw(h, disks, []))
    ensures |Encode(Isw(h, disks, []))| == DiskAt(|disks|) && |EncodeDevs([])| == 0
  {
    hide EncodeDisks;
  }

  // The two volumes and their room.
  lemma Fits(x: Isw, f: byte, disks: nat)
    requires Shaped(x) && 1 <= |x.devs| <= 2
    requires DiskAt(disks) + |EncodeDevs(StartDevs(x.devs, f, |x.disks|))| <= IMAGE_BUFFER
    ensures |EncodeDevs([StartDev(x.devs[0], f, |x.disks|)])| == HEAD_SIZE + 2 * MapSize(Members(x.devs[0]))
    ensures DiskAt(disks) + HEAD_SIZE + 2 * MapSize(Members(x.devs[0])) <= IMAGE_BUFFER
    ensures |x.devs| == 2 ==>
      DiskAt(disks) + 2 * HEAD_SIZE + 2 * MapSize(Members(x.devs[0])) + 2 * MapSize(Members(x.devs[1])) <= IMAGE_BUFFER
    ensures StartDevs(x.devs, f, |x.disks|)
         == if |x.devs| == 1 then [StartDev(x.devs[0], f, |x.disks|)]
            else [StartDev(x.devs[0], f, |x.disks|), StartDev(x.devs[1], f, |x.disks|)]
  {
    hide DevOk, StartDev, Members, EncodeDev, DevLength, EncodeDevs;
    var n := |x.disks|;
    var d0 := StartDev(x.devs[0], f, n);
    StartDevLength(x.devs[0], f, n);
    OneDev(d0);
    if |x.devs| == 2 {
      StartDevLength(x.devs[1], f, n);
      TwoDevs(d0, StartDev(x.devs[1], f, n));
      assert StartDevs(x.devs, f, n) == [d0, StartDev(x.devs[1], f, n)];
    } else {
      assert StartDevs(x.devs, f, n) == [d0];
    }
  }

  // update_metadata, given the failed disk and the entry of the new one.
  method StartImage(source: array<byte>, f: nat, newDisk: Octets, ghost x: Isw, ghost rest: Octets)
    returns (image: array<byte>)
    requires CanStart(x, f) && |newDisk| == DISK_SIZE && FitsBuffer(x, f, newDisk)
    requires source[..] == Encode(x) + rest
    modifies source
    ensures fresh(image) && image.Length == IMAGE_BUFFER
    ensures Good(StartRebuild(x, f, newDisk))
    ensures Holds(image[..], StartRebuild(x, f, newDisk))
  {
    hide Encode, EncodeDisks, EncodeDevs, DevOk, Members, Good, Holds, StartHeader, StartDisks, StartDevs, FailedDisk,
         Shaped;
    StartIs(x, f, newDisk);
    IswRuns.GoodParts(x);
    OkOfGood(x);
    ghost var h, disks := StartHeader(x), StartDisks(x, f, newDisk);
    image := new byte[IMAGE_BUFFER](k => 0);
    StartTables(image, source, f, newDisk, x, rest);
    var offs := AddDevs(image, source, f, Marked(x, f), rest, h, disks);
    CloseImage(image, offs, x, f, newDisk);
  }

  // The last stores.
  method CloseImage(image: array<byte>, offs: nat, ghost x: Isw, ghost f: nat, ghost newDisk: Octets)
    requires CanStart(x, f) && |newDisk| == DISK_SIZE
    requires var y := Isw(StartHeader(x), StartDisks(x, f, newDisk), StartDevs(x.devs, f, |x.disks|));
      Shaped(y) && Holds(image[..], y) && offs == |EncodeDevs(y.devs)|
    modifies image
    ensures Shaped(StartRebuild(x, f, newDisk)) && Holds(image[..], StartRebuild(x, f, newDisk))
  {
    hide EncodeDisks, EncodeDevs, DevOk, Good, StartHeader, StartDevs, FailedEntry, NextGeneration, Image;
    IswRuns.GoodParts(x);
    OkOfGood(x);
    ghost var h, disks, devs := StartHeader(x), StartDisks(x, f, newDisk), StartDevs(x.devs, f, |x.disks|);
    ghost var y := Isw(h, disks, devs);
    ghost var s := image[..];
    ghost var tail := s[|Encode(y)|..];
    assert image[..] == Encode(y) + tail;
    var size := IswLayout.HEADER_SIZE + DISK_SIZE * image[NUM_DISKS] + offs;
    Finish(image, size, h, disks, devs, tail);
    HeaderIs(x);
    CountIsOverwritten(x.header, disks, devs);
    StartIs(x, f, newDisk);
    OkOfGood(StartRebuild(x, f, newDisk));
  }

  lemma HeaderIs(x: Isw)
    requires Good(x) && |x.disks| < 255
    ensures StartHeader(x) == x.header[NUM_DISKS := |x.disks| + 1]
  {
  }
}
