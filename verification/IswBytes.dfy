/** The byte-buffer work that the metadata editors of lib/format/ataraid/isw.c
    share: checksum, walk, copies, and the last stores into a new image.
 */
module IswBytes {
  import opened Bits
  import opened ByteOrder
  import opened Buffers
  import opened IswLayout
  import opened IswChecksum
  import opened IswEdits

  // _checksum
  method ComputeChecksum(a: array<byte>) returns (sum: nat)
    requires a.Length >= IswLayout.HEADER_SIZE && MpbSize(a[..]) <= a.Length
    ensures sum == Checksum(a[..])
  {
    hide Number;
    var end: nat, p: nat := Number(a[MPB_SIZE..MPB_SIZE + 4]) / 4, 0;
    sum := 0;
    assert MpbSize(a[..]) == Number(a[MPB_SIZE..MPB_SIZE + 4]);
    while end > 0
      invariant end + p == MpbSize(a[..]) / 4 && 4 * p <= a.Length
      invariant sum == WordSum(a[..], p) % B4
    {
      assert a[4 * p..4 * p + 4] == Part(a[..], 4 * p, 4);
      sum := (sum + Number(a[4 * p..4 * p + 4])) % B4;
      end, p := end - 1, p + 1;
    }
    assert a[CHECK_SUM..CHECK_SUM + 4] == Part(a[..], CHECK_SUM, 4);
    sum := (sum - Number(a[CHECK_SUM..CHECK_SUM + 4])) % B4;
  }

  // advance_raiddev
  method AdvanceRaiddev(a: array<byte>, o: nat) returns (next: nat)
    requires o + HEAD_SIZE + MAP_FIXED <= a.Length
    ensures next == Advance(a[..], o)
  {
    var members: nat := a[o + HEAD_SIZE + NUM_MEMBERS];
    next := o + (DEV_SIZE + 4 * members - 4);
    if a[o + MIGR_STATE] != 0 {
      next := next + (MAP_FIXED + 4 + 4 * members - 4);
    }
  }

  lemma BeforeFits(x: Isw, rest: Octets, i: nat)
    requires Shaped(x) && i < |x.devs|
    ensures |Before(x, i)| + HEAD_SIZE + MAP_FIXED <= |Before(x, i)| + DevLength(x.devs[i]) <= |Encode(x) + rest|
  {
    hide Encode, EncodeDev;
    CutAt(x, i);
  }

  // raiddev
  method FindRaiddev(a: array<byte>, i: nat, ghost x: Isw, ghost rest: Octets) returns (o: nat)
    requires Shaped(x) && i <= |x.devs| && a[..] == Encode(x) + rest
    ensures o == |Before(x, i)| == Raiddev(a[..], i)
    ensures i < |x.devs| ==> o + HEAD_SIZE + MAP_FIXED <= o + DevLength(x.devs[i]) <= a.Length
  {
    hide Encode, Before, Advance, DevLength, DevOk, Shaped;
    WalkFinds(x, rest, 0);
    EncodeHeader(x, rest);
    o := IswLayout.HEADER_SIZE + DISK_SIZE * a[NUM_DISKS];
    ghost var k := 0;
    var left := i;
    while left > 0
      invariant left + k == i
      invariant o == |Before(x, k)|
    {
      BeforeFits(x, rest, k);
      WalkStep(x, rest, k);
      o := AdvanceRaiddev(a, o);
      left, k := left - 1, k + 1;
    }
    WalkFinds(x, rest, i);
    if i < |x.devs| {
      BeforeFits(x, rest, i);
    }
  }

  lemma EncodeHeader(x: Isw, rest: Octets)
    requires Shaped(x)
    ensures 0 <= NUM_DISKS < IswLayout.HEADER_SIZE <= |Encode(x) + rest|
    ensures (Encode(x) + rest)[NUM_DISKS] == x.header[NUM_DISKS]
    ensures Raiddev(Encode(x) + rest, 0) == IswLayout.HEADER_SIZE + DISK_SIZE * x.header[NUM_DISKS]
  {
  }

  lemma EncodeCounts(x: Isw, rest: Octets)
    requires Ok(x)
    ensures |Encode(x) + rest| >= IswLayout.HEADER_SIZE && (Encode(x) + rest)[NUM_RAID_DEVS] == |x.devs|
    ensures Number(Part(Encode(x) + rest, MPB_SIZE, 4)) == |Encode(x)|
  {
    hide EncodeDisks, EncodeDevs, Number;
    OkSize(x);
    assert Part(Encode(x) + rest, MPB_SIZE, 4) == Part(Encode(x), MPB_SIZE, 4);
  }

  // Volume i is where the walk ends.
  lemma VolumeHolds(x: Isw, rest: Octets, i: nat)
    requires Shaped(x) && i < |x.devs|
    ensures var o, n, s := |Before(x, i)|, DevLength(x.devs[i]), Encode(x) + rest;
      o + n <= |s| && s[o..o + n] == EncodeDev(x.devs[i])
  {
    hide Encode, EncodeDev, Before, After, DevOk, DevLength;
    CutAt(x, i);
    assert Encode(x) + rest == Before(x, i) + EncodeDev(x.devs[i]) + (After(x, i) + rest);
  }

  // mpb_size and generation_num
  method CountUp(a: array<byte>, size: nat, ghost h: Octets, ghost disks: seq<Octets>, ghost devs: seq<Dev>,
      ghost body: Octets)
    requires Parts(h, disks, devs) && h[NUM_DISKS] == |disks| && h[NUM_RAID_DEVS] == |devs|
    requires size == Size(disks, devs) && a[..] == h + body
    modifies a
    ensures a[..] == Counted(NextGeneration(h), disks, devs) + body
  {
    hide Number, Bytes, Size, NextGeneration, DevOk, Counted;
    Overwrite(a, MPB_SIZE, Bytes(size, 4));
    ghost var h1 := Put(h, MPB_SIZE, size, 4);
    assert a[GENERATION_NUM..GENERATION_NUM + 4] == Part(h1, GENERATION_NUM, 4) == Part(h, GENERATION_NUM, 4);
    Overwrite(a, GENERATION_NUM, Bytes(Number(a[GENERATION_NUM..GENERATION_NUM + 4]) + 1, 4));
    FieldsCommute(h, disks, devs);
  }

  // The last stores into a new image.
  method Finish(a: array<byte>, size: nat, ghost h: Octets, ghost disks: seq<Octets>, ghost devs: seq<Dev>,
      ghost tail: Octets)
    requires Parts(h, disks, devs) && h[NUM_DISKS] == |disks| && h[NUM_RAID_DEVS] == |devs|
    requires size == Size(disks, devs)
    requires a[..] == h + EncodeDisks(disks) + EncodeDevs(devs) + tail
    modifies a
    ensures a[..] == Encode(Image(NextGeneration(h), disks, devs)) + tail
  {
    hide Number, Bytes, EncodeDisks, EncodeDevs, Image, NextGeneration, DevOk, Counted, Size;
    ghost var body := EncodeDisks(disks) + EncodeDevs(devs) + tail;
    assert a[..] == h + body;
    CountUp(a, size, h, disks, devs, body);
    StoreChecksum(a, NextGeneration(h), disks, devs, tail);
  }

  // check_sum
  method StoreChecksum(a: array<byte>, ghost h: Octets, ghost disks: seq<Octets>, ghost devs: seq<Dev>,
      ghost tail: Octets)
    requires Parts(h, disks, devs)
    requires a[..] == Counted(h, disks, devs) + (EncodeDisks(disks) + EncodeDevs(devs) + tail)
    modifies a
    ensures a[..] == Encode(Image(h, disks, devs)) + tail
  {
    hide Number, Bytes, EncodeDisks, EncodeDevs, Image, DevOk, Counted;
    ghost var body := EncodeDisks(disks) + EncodeDevs(devs) + tail;
    ghost var y := Isw(Counted(h, disks, devs), disks, devs);
    CountedOk(h, disks, devs);
    OkSize(y);
    assert a[..] == Encode(y) + tail;
    ChecksumOfPrefix(Encode(y), tail);
    var sum := ComputeChecksum(a);
    Overwrite(a, CHECK_SUM, Bytes(sum, 4));
    ImageIs(h, disks, devs);
  }

  lemma FieldsCommute(h: Octets, disks: seq<Octets>, devs: seq<Dev>)
    requires Parts(h, disks, devs) && h[NUM_DISKS] == |disks| && h[NUM_RAID_DEVS] == |devs|
    ensures Splice(Put(h, MPB_SIZE, Size(disks, devs), 4), GENERATION_NUM,
      Bytes(Number(Part(h, GENERATION_NUM, 4)) + 1, 4))
         == Counted(NextGeneration(h), disks, devs)
  {
    hide Number, Bytes, EncodeDisks, EncodeDevs, Size, DevOk;
    SplicesCommute(h, MPB_SIZE, Bytes(Size(disks, devs), 4), GENERATION_NUM,
      Bytes(Number(Part(h, GENERATION_NUM, 4)) + 1, 4));
    var n := NextGeneration(h);
    var u: Octets := n[NUM_DISKS := |disks|][NUM_RAID_DEVS := |devs|];
    assert u == n;
  }

  lemma ImageIs(h: Octets, disks: seq<Octets>, devs: seq<Dev>)
    requires Parts(h, disks, devs)
    ensures var x := Isw(Counted(h, disks, devs), disks, devs);
      && Ok(x) && Image(h, disks, devs) == x.(header := Put(x.header, CHECK_SUM, ChecksumOf(x), 4))
      && Shaped(Image(h, disks, devs))
  {
    hide EncodeDisks, EncodeDevs, Counted;
    CountedOk(h, disks, devs);
    ImageIsGood(h, disks, devs);
  }

  // memcpy behind what was already written
  method Append(a: array<byte>, to: nat, t: Octets)
    requires to + |t| <= a.Length
    modifies a
    ensures a[..to + |t|] == old(a[..to]) + t
    ensures a[to + |t|..] == old(a[to + |t|..])
    ensures forall k :: to + |t| <= k < a.Length ==> a[k] == old(a[k])
  {
    Overwrite(a, to, t);
    assert forall k :: 0 <= k < to ==> a[k] == a[..][k] == old(a[..])[k];
    assert forall k :: to <= k < to + |t| ==> a[k] == a[..][k];
    assert forall k :: to + |t| <= k < a.Length ==> a[k] == a[..][k] == old(a[..])[k];
  }

  lemma {:induction false} DisksPrefix(disks: seq<Octets>, n: nat)
    requires DisksOk(disks) && n <= |disks|
    ensures EncodeDisks(disks)[..DISK_SIZE * n] == EncodeDisks(disks[..n])
  {
    if n > 0 {
      DisksPrefix(disks[1..], n - 1);
      assert disks[..n][1..] == disks[1..][..n - 1];
      assert disks[..n][0] == disks[0];
      var d, tail := disks[0], EncodeDisks(disks[1..]);
      assert EncodeDisks(disks) == d + tail;
      assert (d + tail)[..DISK_SIZE * n] == d + tail[..DISK_SIZE * (n - 1)];
    }
  }

  lemma {:induction false} DisksConcat(a: seq<Octets>, b: seq<Octets>)
    requires DisksOk(a) && DisksOk(b)
    ensures EncodeDisks(a + b) == EncodeDisks(a) + EncodeDisks(b)
  {
    if a == [] {
      assert a + b == b;
    } else {
      assert (a + b)[1..] == a[1..] + b;
      DisksConcat(a[1..], b);
    }
  }

  lemma OneDisk(disk: Octets)
    requires |disk| == DISK_SIZE
    ensures EncodeDisks([disk]) == disk
  {
    assert EncodeDisks([disk][1..]) == [];
  }

  // Disk i lies after the disks before it.
  lemma NextDisk(disks: seq<Octets>, i: nat)
    requires DisksOk(disks) && i < |disks|
    ensures EncodeDisks(disks[..i + 1]) == EncodeDisks(disks[..i]) + disks[i]
  {
    hide EncodeDisks;
    OneDisk(disks[i]);
    DisksConcat(disks[..i], [disks[i]]);
    assert disks[..i + 1] == disks[..i] + [disks[i]];
  }

  lemma DiskInTable(disks: seq<Octets>, i: nat)
    requires DisksOk(disks) && i < |disks|
    ensures EncodeDisks(disks) == EncodeDisks(disks[..i]) + disks[i] + EncodeDisks(disks[i + 1..])
  {
    hide EncodeDisks;
    NextDisk(disks, i);
    DisksConcat(disks[..i + 1], disks[i + 1..]);
    assert disks == disks[..i + 1] + disks[i + 1..];
  }

  lemma CountIsOverwritten(h: Octets, disks: seq<Octets>, devs: seq<Dev>)
    requires Parts(h, disks, devs)
    ensures Image(NextGeneration(h[NUM_DISKS := |disks|]), disks, devs) == Image(NextGeneration(h), disks, devs)
  {
    hide EncodeDisks, EncodeDevs, DevOk, Bytes, Size, Checksum;
    var g: Octets := h[NUM_DISKS := |disks|];
    assert Part(g, GENERATION_NUM, 4) == Part(h, GENERATION_NUM, 4);
    assert Counted(NextGeneration(g), disks, devs) == Counted(NextGeneration(h), disks, devs);
  }
}
