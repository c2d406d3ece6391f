/** update_metadata_after_rebuild of lib/format/ataraid/isw.c on byte buffers:
    the structures are copied with running offsets, and the fields are stored in
    place. The bytes it builds are those of EndRebuild.
 */
module IswAfterRebuild {
  import opened Bits
  import opened ByteOrder
  import opened Buffers
  import opened IswLayout
  import opened IswChecksum
  import opened IswEdits
  import opened IswRuns
  import opened IswBytes

  // The copies take the length of a map from the volume that is rebuilt. When the other
  // volume is on fewer drives they write past the new image, which is as long as it should be.
  predicate CanCopy(x: Isw, v: nat) {
    CanEnd(x, v) && forall i :: 0 <= i < |x.devs| ==> Members(x.devs[v]) <= Members(x.devs[i])
  }

  // How many bytes of the other volume are not copied when it is on more drives.
  function Missed(x: Isw, v: nat): (k: nat)
    requires CanCopy(x, v)
  {
    if |x.devs| < 2 then 0
    else
      var d := x.devs[1 - v];
      |d.maps| * (4 * (Members(d) - Members(x.devs[v])))
  }

  // The last k bytes are those of the new buffer.
  function Cut(s: Octets, k: nat): (r: Octets)
    requires k <= |s|
    ensures |r| == |s|
  {
    s[..|s| - k] + seq(k, i => 0)
  }

  // A rebuilt volume in the old image: marked as finished, both maps still there.
  function Marked(d: Dev): (r: Octets)
    requires DevOk(d) && |d.maps| == 2
    ensures |r| == DevLength(d)
  {
    d.head[MIGR_STATE := 0][MIGR_TYPE := 0] + d.maps[0][FAILED_DISK_NUM := ISW_DEV_NONE_FAILED] + d.maps[1]
  }

  method MarkRebuilt(image: array<byte>, vol: nat, ghost pre: Octets, ghost d: Dev, ghost post: Octets)
    requires DevOk(d) && |d.maps| == 2
    requires image[..] == pre + EncodeDev(d) + post && vol == |pre|
    modifies image
    ensures image[..] == pre + Marked(d) + post
  {
    hide DevLength, Members;
    ghost var s := image[..];
    ghost var e := EncodeDev(d);
    assert |e| == |d.head| + |d.maps[0]| + |d.maps[1]|;
    image[vol + MIGR_TYPE] := 0;
    image[vol + MIGR_STATE] := 0;
    image[vol + HEAD_SIZE + FAILED_DISK_NUM] := ISW_DEV_NONE_FAILED;
    assert image[..] == pre + Marked(d) + post;
  }

  ghost predicate CanEndDev(d: Dev, rebuilt: bool) {
    DevOk(d) && (rebuilt ==> |d.maps| == 2)
  }

  // A volume in the old image once the rebuilt one is marked, and what is kept of it.
  ghost function Raw(d: Dev, rebuilt: bool): (r: Octets)
    requires CanEndDev(d, rebuilt)
    ensures |r| == DevLength(d)
  {
    if rebuilt then Marked(d) else EncodeDev(d)
  }

  ghost function Kept(d: Dev, rebuilt: bool): (r: Dev)
    requires CanEndDev(d, rebuilt)
    ensures DevOk(r)
  {
    if rebuilt then EndDev(d) else d
  }

  lemma KeptIsPrefix(d: Dev, rebuilt: bool)
    requires CanEndDev(d, rebuilt)
    ensures var n := HEAD_SIZE + if rebuilt
      || d.head[MIGR_STATE] == 0 then MapSize(Members(d)) else 2 * MapSize(Members(d));
      && n == DevLength(Kept(d, rebuilt)) <= DevLength(d)
      && Raw(d, rebuilt)[..n] == EncodeDev(Kept(d, rebuilt))
      && DevLength(d) == n + if rebuilt then MapSize(Members(d)) else 0
    ensures Raw(d, rebuilt)[MIGR_STATE] == if rebuilt then 0 else d.head[MIGR_STATE]
    ensures Raw(d, rebuilt)[MIGR_TYPE] == if rebuilt then 0 else d.head[MIGR_TYPE]
    ensures Raw(d, rebuilt)[HEAD_SIZE + NUM_MEMBERS] == Members(d)
  {
  }

  // The length that adjust_length gives for a volume.
  function Adjusted(s: Octets, o: nat, rebuilt: bool, mapSize: nat): nat
    requires o + MIGR_STATE < |s|
  {
    HEAD_SIZE + if rebuilt || s[o + MIGR_STATE] == 0 then mapSize else 2 * mapSize
  }

  // The copy of one volume record.
  method CopyVolume(image: array<byte>, to: nat, source: array<byte>, from: nat, rebuilt: bool, mapSize: nat)
    returns (n: nat)
    requires image != source && from + MIGR_STATE < source.Length
    requires from + Adjusted(source[..], from, rebuilt, mapSize) <= source.Length
    requires to + Adjusted(source[..], from, rebuilt, mapSize) <= image.Length
    modifies image
    ensures n == Adjusted(source[..], from, rebuilt, mapSize)
    ensures image[..to + n] == old(image[..to]) + source[from..from + n]
    ensures forall k :: to + n <= k < image.Length ==> image[k] == old(image[k])
  {
    n := HEAD_SIZE + if rebuilt || source[from + MIGR_STATE] == 0 then mapSize else 2 * mapSize;
    Append(image, to, source[from..from + n]);
  }

  ghost predicate HoldsRaw(s: Octets, x: Isw, v: nat, i: nat)
    requires Shaped(x) && i < |x.devs| && CanEndDev(x.devs[i], i == v)
  {
    var o, n := |Before(x, i)|, DevLength(x.devs[i]);
    o + n <= |s| && s[o..o + n] == Raw(x.devs[i], i == v)
  }

  lemma HoldsBefore(x: Isw, i: nat)
    requires Shaped(x) && i < |x.devs|
    ensures |Before(x, i + 1)| == |Before(x, i)| + DevLength(x.devs[i])
    ensures Before(x, i + 1)[|Before(x, i)|..] == EncodeDev(x.devs[i])
  {
    hide EncodeDev, EncodeDevs, EncodeDisks, DevOk;
    CutAt(x, i);
  }

  // The old image once the rebuilt volume is marked.
  lemma MarkedImage(x: Isw, v: nat, rest: Octets)
    requires CanEnd(x, v)
    ensures var s := Before(x, v) + Marked(x.devs[v]) + (After(x, v) + rest);
      && |s| >= |Before(x, 0)| && s[..|Before(x, 0)|] == Before(x, 0)
      && HoldsRaw(s, x, v, 0) && (|x.devs| == 2 ==> HoldsRaw(s, x, v, 1))
  {
    hide Before, EncodeDev, Marked, DevOk, EncodeDisks, Good;
    GoodParts(x);
    OkOfGood(x);
    HoldsBefore(x, 0);
    var s := Before(x, v) + Marked(x.devs[v]) + (After(x, v) + rest);
    if v == 1 {
      PrefixOfBefore(x);
      assert s[|Before(x, 0)|..|Before(x, 1)|] == EncodeDev(x.devs[0]);
    } else if |x.devs| == 2 {
      OneDev(x.devs[1]);
      assert x.devs[1..] == [x.devs[1]];
      assert s[|Before(x, 1)|..|Before(x, 1)| + DevLength(x.devs[1])] == EncodeDev(x.devs[1]);
    }
  }

  lemma PrefixOfBefore(x: Isw)
    requires Shaped(x) && |x.devs| >= 1
    ensures Before(x, 1) == Before(x, 0) + EncodeDev(x.devs[0])
  {
    hide EncodeDev, EncodeDevs, EncodeDisks, DevOk;
    CutAt(x, 0);
  }

  lemma CanEndGives(x: Isw, v: nat)
    requires CanEnd(x, v)
    ensures Parts(x.header, x.disks, x.devs) && Ok(x) && Shaped(x) && x.header[NUM_RAID_DEVS] == |x.devs|
    ensures |x.header| == IswLayout.HEADER_SIZE && v < |x.devs| <= 2 && 1 <= |x.disks| < 256
    ensures DevOk(x.devs[0]) && DevOk(x.devs[v]) && (|x.devs| == 2 ==> DevOk(x.devs[1]))
    ensures |x.devs[v].maps| == 2 && CanEndDev(x.devs[0], v == 0) && (|x.devs| == 2 ==> CanEndDev(x.devs[1], v == 1))
  {
    hide Members, EncodeDisks, EncodeDevs, Accepted, Number;
  }

  // The rebuilt volume is found and marked in the old image.
  method MarkVolume(source: array<byte>, v: nat, ghost x: Isw, ghost rest: Octets)
    returns (two: bool, vol0: nat, vol1: nat)
    requires CanEnd(x, v) && source[..] == Encode(x) + rest
    modifies source
    ensures two == (|x.devs| == 2) && vol0 == |Before(x, 0)| && (two ==> vol1 == |Before(x, 1)|)
    ensures source[..] == Before(x, v) + Marked(x.devs[v]) + (After(x, v) + rest)
  {
    hide Encode, EncodeDev, Good, DevOk, Before, After, Marked;
    CanEndGives(x, v);
    EncodeHeader(x, rest);
    EncodeCounts(x, rest);
    vol0 := FindRaiddev(source, 0, x, rest);
    vol1, two := 0, source[NUM_RAID_DEVS] > 1;
    if two {
      vol1 := FindRaiddev(source, 1, x, rest);
    }
    CutAt(x, v);
    assert source[..] == Before(x, v) + EncodeDev(x.devs[v]) + (After(x, v) + rest);
    MarkRebuilt(source, if v == 0 then vol0 else vol1, Before(x, v), x.devs[v], After(x, v) + rest);
  }

  // The copies of the header and of the disk table.
  method CopyDisks(image: array<byte>, source: array<byte>, v: nat, remove: nat, ghost x: Isw)
    returns (to: nat, from: nat)
    requires image != source && CanEnd(x, v) && remove == (if DropsDisk(EndDevs(x, v)) then 1 else 0)
    requires |Before(x, 0)| <= source.Length && source[..|Before(x, 0)|] == Before(x, 0)
    requires image.Length >= IswLayout.HEADER_SIZE + |EncodeDisks(EndDisks(x, v))|
    modifies image
    ensures to == IswLayout.HEADER_SIZE + |EncodeDisks(EndDisks(x, v))| <= image.Length && from == |Before(x, 0)|
    ensures image[..to] == x.header + EncodeDisks(EndDisks(x, v))
    ensures forall k :: to <= k < image.Length ==> image[k] == old(image[k])
  {
    hide EncodeDevs, DevOk, Good, DropsDisk, EncodeDisks, EndDisks;
    CanEndGives(x, v);
    KeptDisks(x, v);
    SliceOfPrefix(source[..], |Before(x, 0)|, 0, IswLayout.HEADER_SIZE);
    assert x.header == Before(x, 0)[0..IswLayout.HEADER_SIZE] == source[..IswLayout.HEADER_SIZE];
    assert source[NUM_DISKS] == source[..|Before(x, 0)|][NUM_DISKS];
    Append(image, 0, source[..IswLayout.HEADER_SIZE]);
    var n: nat := (source[NUM_DISKS] - remove) * DISK_SIZE;
    to, from := IswLayout.HEADER_SIZE, IswLayout.HEADER_SIZE;
    SliceOfPrefix(source[..], |Before(x, 0)|, from, from + n);
    assert source[from..from + n] == Before(x, 0)[from..from + n];
    Append(image, to, source[from..from + n]);
    to, from := to + n, from + n + remove * DISK_SIZE;
  }

  function MissedOf(d: Dev, m: nat): nat
    requires DevOk(d) && m <= Members(d)
  {
    |d.maps| * (4 * (Members(d) - m))
  }

  // The other volume, measured with maps of m members.
  lemma OtherLength(d: Dev, m: nat)
    requires DevOk(d) && m <= Members(d)
    ensures DevLength(d)
         == HEAD_SIZE + (if d.head[MIGR_STATE] == 0 then MapSize(m) else 2 * MapSize(m)) + MissedOf(d, m)
  {
  }

  lemma CopiedOne(x: Isw, v: nat, s: Octets)
    requires CanCopy(x, v) && |x.devs| == 1 && HoldsRaw(s, x, v, 0)
    ensures var at, m, devs := |Before(x, 0)|, MapSize(Members(x.devs[v])), EncodeDevs(EndDevs(x, v));
      && at + HEAD_SIZE + m <= |s| && s[at..at + HEAD_SIZE + m] == devs && Missed(x, v) == 0
  {
    hide EncodeDevs, EncodeDev, DevOk, Good, Kept, Raw, EndDevs, Before, Members, DevLength;
    CanEndGives(x, v);
    KeptDevs(x, v);
    KeptIsPrefix(x.devs[0], true);
    var at, n := |Before(x, 0)|, DevLength(x.devs[0]);
    SliceOfSlice(s, at, n, 0, HEAD_SIZE + MapSize(Members(x.devs[0])));
  }

  // Two volumes in a buffer, the second one at its place behind the first.
  ghost predicate Adjacent(s: Octets, at: nat, a: Dev, first: bool, b: Dev, second: bool)
    requires CanEndDev(a, first) && CanEndDev(b, second)
  {
    var next := at + DevLength(a);
    && next + DevLength(b) <= |s|
    && s[at..next] == Raw(a, first) && s[next..next + DevLength(b)] == Raw(b, second)
  }

  ghost function BothKept(a: Dev, first: bool, b: Dev, second: bool): Octets
    requires CanEndDev(a, first) && CanEndDev(b, second)
  {
    EncodeDev(Kept(a, first)) + EncodeDev(Kept(b, second))
  }

  // The bytes that the two copies take, with m bytes passed over behind a rebuilt first volume.
  ghost predicate Copies(s: Octets, at: nat, first: bool, second: bool, two: bool, m: nat, taken: Octets) {
    && at + MIGR_STATE < |s|
    && var n := Adjusted(s, at, first, m);
       var next := at + n + if first then m else 0;
       && at + n <= |s|
       && (!two ==> s[at..at + n] == taken)
       && (two ==>
             && next + MIGR_STATE < |s|
             && next + Adjusted(s, next, second, m) <= |s|
             && s[at..at + n] + s[next..next + Adjusted(s, next, second, m)] == taken)
  }

  // The part of the rebuilt volume that is kept.
  lemma RebuiltPiece(s: Octets, at: nat, d: Dev)
    requires CanEndDev(d, true) && at + DevLength(d) <= |s| && s[at..at + DevLength(d)] == Raw(d, true)
    ensures var n := HEAD_SIZE + MapSize(Members(d));
      && DevLength(d) == n + MapSize(Members(d)) && n == |EncodeDev(Kept(d, true))|
      && s[at..at + n] == EncodeDev(Kept(d, true)) == Raw(d, true)[..n]
  {
    hide EncodeDev, DevOk, Kept, Raw, Members, DevLength, MapSize;
    KeptIsPrefix(d, true);
    SliceOfSlice(s, at, DevLength(d), 0, HEAD_SIZE + MapSize(Members(d)));
  }

  // The part of the other volume that is copied.
  lemma OtherPiece(s: Octets, at: nat, d: Dev, m: nat)
    requires DevOk(d) && m <= Members(d) && at + DevLength(d) <= |s| && s[at..at + DevLength(d)] == Raw(d, false)
    ensures at + MIGR_STATE < |s| && Raw(d, false) == EncodeDev(d) == EncodeDev(Kept(d, false))
    ensures var n := Adjusted(s, at, false, MapSize(m));
      n + MissedOf(d, m) == DevLength(d) && s[at..at + n] == EncodeDev(d)[..n]
  {
    hide EncodeDev, DevOk, Kept, Raw, Members, DevLength, MapSize, MissedOf;
    KeptIsPrefix(d, false);
    KeptOther(d);
    OtherLength(d, m);
    assert s[at + MIGR_STATE] == s[at..at + DevLength(d)][MIGR_STATE];
    SliceOfSlice(s, at, DevLength(d), 0, Adjusted(s, at, false, MapSize(m)));
  }

  // What is copied when the first volume is the rebuilt one.
  lemma CopiedFirst(s: Octets, at: nat, a: Dev, b: Dev)
    requires CanEndDev(a, true) && CanEndDev(b, false) && Members(a) <= Members(b) && Adjacent(s, at, a, true, b, false)
    ensures var k, both := MissedOf(b, Members(a)), BothKept(a, true, b, false);
      k <= |both| && Copies(s, at, true, false, true, MapSize(Members(a)), both[..|both| - k])
  {
    hide EncodeDev, DevOk, Kept, Raw, Members, DevLength, MapSize, MissedOf;
    var m, next := MapSize(Members(a)), at + DevLength(a);
    RebuiltPiece(s, at, a);
    OtherPiece(s, next, b, Members(a));
    PrefixOfJoined(EncodeDev(Kept(a, true)), EncodeDev(b), Adjusted(s, next, false, m));
  }

  lemma KeptOther(d: Dev)
    requires CanEndDev(d, false)
    ensures Kept(d, false) == d && Raw(d, false) == EncodeDev(d)
  {
  }

  lemma PrefixOfJoined(a: Octets, b: Octets, n: nat)
    requires n <= |b|
    ensures (a + b)[..|a| + n] == a + b[..n]
  {
  }

  // What is copied when the second one is: one piece, as long as both should be together.
  lemma CopiedSecond(s: Octets, at: nat, a: Dev, b: Dev)
    requires CanEndDev(a, false) && CanEndDev(b, true) && Members(b) <= Members(a) && Adjacent(s, at, a, false, b, true)
    ensures var k, both := MissedOf(a, Members(b)), BothKept(a, false, b, true);
      k <= |both| && Copies(s, at, false, true, true, MapSize(Members(b)), both[..|both| - k])
  {
    hide EncodeDev, DevOk, Kept, Raw, Members, DevLength, MapSize, MissedOf;
    var m, l0, l1 := MapSize(Members(b)), DevLength(a), DevLength(b);
    RebuiltPiece(s, at + l0, b);
    OtherPiece(s, at, a, Members(b));
    var n := Adjusted(s, at, false, m);
    OnePiece(s, at, l0, l1, n, HEAD_SIZE + m);
    SameStart(EncodeDev(a), Raw(b, true), EncodeDev(Kept(b, true)), n + HEAD_SIZE + m);
    InsideSecond(s, at, n, m);
  }

  lemma InsideSecond(s: Octets, at: nat, n: nat, m: nat)
    requires at + n + HEAD_SIZE + m <= |s|
    ensures at + n + MIGR_STATE < |s| && Adjusted(s, at + n, true, m) == HEAD_SIZE + m
  {
  }

  lemma OnePiece(s: Octets, at: nat, l0: nat, l1: nat, n: nat, c: nat)
    requires at + l0 + l1 <= |s| && n + c <= l0 + l1
    ensures s[at..at + n] + s[at + n..at + n + c] == (s[at..at + l0] + s[at + l0..at + l0 + l1])[..n + c]
  {
    Joined(s, at, l0, l1);
    Joined(s, at, n, c);
    SliceOfSlice(s, at, l0 + l1, 0, n + c);
  }

  lemma Joined(s: Octets, at: nat, m: nat, n: nat)
    requires at + m + n <= |s|
    ensures s[at..at + m] + s[at + m..at + m + n] == s[at..at + m + n]
  {
  }

  lemma SameStart(a: Octets, b: Octets, c: Octets, n: nat)
    requires |c| <= |b| && b[..|c|] == c && n <= |a| + |c|
    ensures (a + b)[..n] == (a + c)[..n]
  {
    forall i | 0 <= i < n ensures (a + b)[i] == (a + c)[i] {
      if i >= |a| {
        assert b[..|c|][i - |a|] == c[i - |a|];
      }
    }
  }

  // The two volumes of an image.
  lemma VolumesAdjacent(x: Isw, v: nat, s: Octets)
    requires CanCopy(x, v) && |x.devs| == 2 && HoldsRaw(s, x, v, 0) && HoldsRaw(s, x, v, 1)
    ensures CanEndDev(x.devs[0], v == 0) && CanEndDev(x.devs[1], v == 1)
    ensures Members(x.devs[v]) <= Members(x.devs[1 - v])
    ensures Adjacent(s, |Before(x, 0)|, x.devs[0], v == 0, x.devs[1], v == 1)
    ensures EncodeDevs(EndDevs(x, v)) == BothKept(x.devs[0], v == 0, x.devs[1], v == 1)
    ensures Missed(x, v) == MissedOf(x.devs[1 - v], Members(x.devs[v]))
  {
    hide EncodeDevs, EncodeDev, DevOk, Good, Kept, Raw, EndDevs, Before, Members, DevLength;
    CanEndGives(x, v);
    KeptDevs(x, v);
    HoldsBefore(x, 0);
  }

  lemma ImageCopies(x: Isw, v: nat, s: Octets)
    requires CanCopy(x, v) && HoldsRaw(s, x, v, 0) && (|x.devs| == 2 ==> HoldsRaw(s, x, v, 1))
    ensures var m, devs := MapSize(Members(x.devs[v])), EncodeDevs(EndDevs(x, v));
      && Missed(x, v) <= |devs|
      && Copies(s, |Before(x, 0)|, v == 0, v == 1, |x.devs| == 2, m, devs[..|devs| - Missed(x, v)])
  {
    hide EncodeDevs, EncodeDev, DevOk, Good, EndDevs, Before, Members, Missed, HoldsRaw, MapSize, Adjacent, BothKept,
         MissedOf, DevLength, Raw, Kept;
    CanEndGives(x, v);
    var devs := EncodeDevs(EndDevs(x, v));
    if |x.devs| == 1 {
      CopiedOne(x, v, s);
      assert devs[..|devs|] == devs;
    } else {
      VolumesAdjacent(x, v, s);
      if v == 0 {
        CopiedFirst(s, |Before(x, 0)|, x.devs[0], x.devs[1]);
      } else {
        CopiedSecond(s, |Before(x, 0)|, x.devs[0], x.devs[1]);
      }
    }
  }

  // The copies of the volumes.
  method CopyVolumes(image: array<byte>, source: array<byte>, start: nat, at: nat, v: nat, mapSize: nat, two: bool,
                     ghost taken: Octets)
    requires image != source && start + |taken| <= image.Length
    requires Copies(source[..], at, v == 0, v == 1, two, mapSize, taken)
    modifies image
    ensures image[..start + |taken|] == old(image[..start]) + taken
    ensures forall k :: start + |taken| <= k < image.Length ==> image[k] == old(image[k])
  {
    hide Adjusted;
    var to, from := start, at;
    var n := CopyVolume(image, to, source, from, v == 0, mapSize);
    to, from := to + n, from + n;
    if v == 0 {
      from := from + mapSize;
    }
    if two {
      n := CopyVolume(image, to, source, from, v == 1, mapSize);
      to, from := to + n, from + n;
    }
  }

  lemma KeptDevs(x: Isw, v: nat)
    requires CanEnd(x, v)
    ensures EncodeDevs(EndDevs(x, v))
         == EncodeDev(Kept(x.devs[0], v == 0)) + if |x.devs| == 2 then EncodeDev(Kept(x.devs[1], v == 1)) else []
  {
    hide EncodeDev, DevOk, Good, EndDev;
    CanEndGives(x, v);
    var devs := EndDevs(x, v);
    OneDev(devs[0]);
    if |devs| == 2 {
      OneDev(devs[1]);
      EncodeDevsConcat([devs[0]], [devs[1]]);
      assert devs == [devs[0]] + [devs[1]];
    } else {
      assert devs == [devs[0]];
    }
  }

  lemma KeptDisks(x: Isw, v: nat)
    requires CanEnd(x, v)
    ensures var remove := if DropsDisk(EndDevs(x, v)) then 1 else 0;
      var n := (x.header[NUM_DISKS] - remove) * DISK_SIZE;
      && n == |EncodeDisks(EndDisks(x, v))| && IswLayout.HEADER_SIZE + n + remove * DISK_SIZE == |Before(x, 0)|
      && Before(x, 0)[IswLayout.HEADER_SIZE..IswLayout.HEADER_SIZE + n] == EncodeDisks(EndDisks(x, v))
      && Before(x, 0)[..IswLayout.HEADER_SIZE] == x.header && Before(x, 0)[NUM_DISKS] == |x.disks|
  {
    hide EncodeDev, DevOk, Good, DropsDisk, EncodeDisks;
    CanEndGives(x, v);
    assert x.devs[..0] == [];
    DisksPrefix(x.disks, |EndDisks(x, v)|);
    assert Before(x, 0) == x.header + EncodeDisks(x.disks);
    assert x.disks[..|x.disks|] == x.disks;
  }

  // The sizes computed from the marked image.
  lemma EndSizes(x: Isw, v: nat, rest: Octets, s: Octets)
    requires CanEnd(x, v)
    requires s == Before(x, v) + Marked(x.devs[v]) + (After(x, v) + rest)
    ensures HoldsRaw(s, x, v, 0) && (|x.devs| == 2 ==> HoldsRaw(s, x, v, 1))
    ensures |Before(x, 0)| <= |s| && s[..|Before(x, 0)|] == Before(x, 0)
    ensures |s| > |Before(x, v)| + HEAD_SIZE + NUM_MEMBERS
      && s[|Before(x, v)| + HEAD_SIZE + NUM_MEMBERS] == Members(x.devs[v])
    ensures |s| > |Before(x, 0)| + MIGR_TYPE && s[|Before(x, 0)| + MIGR_TYPE] == EndDevs(x, v)[0].head[MIGR_TYPE]
    ensures |x.devs| == 2 ==>
      |s| > |Before(x, 1)| + MIGR_TYPE && s[|Before(x, 1)| + MIGR_TYPE] == EndDevs(x, v)[1].head[MIGR_TYPE]
    ensures Number(Part(s, MPB_SIZE, 4)) == |Encode(x)|
  {
    hide Marked, After, Good, DevOk, Before, Members, EncodeDisks, EncodeDevs, Number, Encode, Raw;
    CanEndGives(x, v);
    MarkedImage(x, v, rest);
    RawType(x, v, 0);
    if |x.devs| == 2 {
      RawType(x, v, 1);
    }
    HeaderIsBefore(x);
    OkSize(x);
    EncodeMpb(x);
    PartOfPart(s, 0, |Before(x, 0)|, MPB_SIZE, 4);
  }

  lemma RawType(x: Isw, v: nat, i: nat)
    requires CanEnd(x, v) && i < |x.devs| && CanEndDev(x.devs[i], i == v)
    ensures Raw(x.devs[i], i == v)[MIGR_TYPE] == EndDevs(x, v)[i].head[MIGR_TYPE]
    ensures Raw(x.devs[i], i == v)[HEAD_SIZE + NUM_MEMBERS] == Members(x.devs[i])
    ensures DevLength(x.devs[i]) > HEAD_SIZE + NUM_MEMBERS
  {
    hide Good, Raw;
    CanEndGives(x, v);
    KeptIsPrefix(x.devs[i], i == v);
  }

  lemma HeaderIsBefore(x: Isw)
    requires Shaped(x)
    ensures |Before(x, 0)| >= IswLayout.HEADER_SIZE && Before(x, 0)[..IswLayout.HEADER_SIZE] == x.header
  {
  }

  lemma EncodeMpb(x: Isw)
    requires Ok(x)
    ensures |Before(x, 0)| >= IswLayout.HEADER_SIZE && Number(Part(Before(x, 0), MPB_SIZE, 4)) == |Encode(x)|
  {
    hide Number, EncodeDisks, EncodeDevs;
    HeaderIsBefore(x);
    assert Part(Before(x, 0), MPB_SIZE, 4) == Part(x.header, MPB_SIZE, 4);
  }

  lemma NewSize(x: Isw, v: nat)
    requires CanEnd(x, v)
    ensures Size(EndDisks(x, v), EndDevs(x, v))
         == |Encode(x)| - (if DropsDisk(EndDevs(x, v)) then DISK_SIZE else 0) - MapSize(Members(x.devs[v]))
  {
    hide Good, DevOk, Members, EncodeDev, DropsDisk;
    CanEndGives(x, v);
    KeptDevs(x, v);
    OneDev(x.devs[0]);
    KeptIsPrefix(x.devs[0], v == 0);
    if |x.devs| == 2 {
      KeptIsPrefix(x.devs[1], v == 1);
      OneDev(x.devs[1]);
      EncodeDevsConcat([x.devs[0]], [x.devs[1]]);
      assert x.devs == [x.devs[0]] + [x.devs[1]];
    } else {
      assert x.devs == [x.devs[0]];
    }
  }

  // What is stored in the checksum field does not matter to the checksum.
  lemma SealAgain(s: Octets, t: Octets)
    requires |s| >= IswLayout.HEADER_SIZE && IswLayout.HEADER_SIZE <= MpbSize(s) <= |s| && |t| == 4
    ensures var r := Splice(s, CHECK_SUM, t); MpbSize(r) == MpbSize(s) && Sealed(r) == Sealed(s)
  {
    hide Number, Bytes;
    var r := Splice(s, CHECK_SUM, t);
    assert Part(r, MPB_SIZE, 4) == Part(s, MPB_SIZE, 4);
    SumWithoutField(s, r, MpbSize(s) / 4);
    SpliceTwice(s, CHECK_SUM, t, Bytes(Checksum(s), 4));
  }

  lemma CutKeepsSize(e: Octets, k: nat)
    requires IswLayout.HEADER_SIZE <= |e| - k && MpbSize(e) == |e|
    ensures |Cut(e, k)| == |e| && MpbSize(Cut(e, k)) == |e|
  {
    hide Number;
    assert Part(Cut(e, k), MPB_SIZE, 4) == Part(e, MPB_SIZE, 4);
  }

  // The last k bytes of an image are bytes of its volumes.
  lemma CutImage(h: Octets, disks: seq<Octets>, devs: seq<Dev>, k: nat)
    requires Parts(h, disks, devs) && k <= |EncodeDevs(devs)|
    ensures var y := Image(h, disks, devs);
      var a := Counted(h, disks, devs) + (EncodeDisks(disks) + Cut(EncodeDevs(devs), k));
      && IswLayout.HEADER_SIZE <= |Encode(y)| - k && MpbSize(Encode(y)) == |Encode(y)|
      && IswLayout.HEADER_SIZE <= MpbSize(a) <= |a|
      && MpbSize(Cut(Encode(y), k)) == |Encode(y)| && Sealed(a) == Sealed(Cut(Encode(y), k))
  {
    hide Number, Bytes, EncodeDisks, EncodeDevs, DevOk, Counted, Checksum, Cut, Sealed;
    ImageIs(h, disks, devs);
    ImageIsGood(h, disks, devs);
    var y, z := Image(h, disks, devs), Isw(Counted(h, disks, devs), disks, devs);
    OkOfGood(y);
    OkSize(y);
    OkSize(z);
    CutKeepsSize(Encode(y), k);
    CutKeepsSize(Encode(z), k);
    CutOfEncode(y, k);
    CutOfEncode(z, k);
    var c := Bytes(ChecksumOf(z), 4);
    var body := EncodeDisks(disks) + Cut(EncodeDevs(devs), k);
    assert Put(z.header, CHECK_SUM, ChecksumOf(z), 4) + body == Splice(z.header + body, CHECK_SUM, c);
    SealAgain(z.header + body, c);
  }

  lemma CutOfEncode(y: Isw, k: nat)
    requires Shaped(y) && k <= |EncodeDevs(y.devs)|
    ensures |Encode(y)| >= k && Cut(Encode(y), k) == y.header + (EncodeDisks(y.disks) + Cut(EncodeDevs(y.devs), k))
  {
    hide EncodeDisks, EncodeDevs, DevOk;
    var devs := EncodeDevs(y.devs);
    assert Encode(y) == y.header + EncodeDisks(y.disks) + devs;
    assert Encode(y)[..|Encode(y)| - k] == y.header + EncodeDisks(y.disks) + devs[..|devs| - k];
  }

  // The last stores into the new image.
  method FinishCut(a: array<byte>, size: nat, ghost h: Octets, ghost disks: seq<Octets>, ghost devs: seq<Dev>,
      ghost k: nat)
    requires Parts(h, disks, devs) && h[NUM_DISKS] == |disks| && h[NUM_RAID_DEVS] == |devs|
    requires size == Size(disks, devs) && k <= |EncodeDevs(devs)|
    requires a[..] == h + EncodeDisks(disks) + Cut(EncodeDevs(devs), k)
    modifies a
    ensures var e := Encode(Image(NextGeneration(h), disks, devs));
      && IswLayout.HEADER_SIZE <= |e| - k && MpbSize(Cut(e, k)) == |e| && a[..] == Sealed(Cut(e, k))
  {
    hide Number, Bytes, EncodeDisks, EncodeDevs, Image, NextGeneration, DevOk, Counted, Size, Checksum, Cut;
    ghost var body := EncodeDisks(disks) + Cut(EncodeDevs(devs), k);
    assert a[..] == h + body;
    CountUp(a, size, h, disks, devs, body);
    CutImage(NextGeneration(h), disks, devs, k);
    var sum := ComputeChecksum(a);
    Overwrite(a, CHECK_SUM, Bytes(sum, 4));
  }

  // remove_disk, map_size and new_isw_size
  method NewSizes(source: array<byte>, v: nat, two: bool, vol0: nat, vol1: nat, ghost x: Isw, ghost rest: Octets)
    returns (remove: nat, mapSize: nat, size: nat)
    requires CanEnd(x, v) && source[..] == Before(x, v) + Marked(x.devs[v]) + (After(x, v) + rest)
    requires two == (|x.devs| == 2) && vol0 == |Before(x, 0)| && (two ==> vol1 == |Before(x, 1)|)
    ensures remove == (if DropsDisk(EndDevs(x, v)) then 1 else 0)
    ensures mapSize == MapSize(Members(x.devs[v])) && size == Size(EndDisks(x, v), EndDevs(x, v))
  {
    hide Good, DevOk, Encode, EncodeDevs, EncodeDisks, Before, After, Marked, Members, Number, Image, HoldsRaw,
         NextGeneration, EndDev;
    CanEndGives(x, v);
    EndSizes(x, v, rest, source[..]);
    NewSize(x, v);
    remove := if source[vol0 + MIGR_TYPE] == 0 && two then if source[vol1 + MIGR_TYPE] == 0 then 1 else 0 else 1;
    var members: nat := source[(if v == 0 then vol0 else vol1) + HEAD_SIZE + NUM_MEMBERS];
    mapSize := MAP_FIXED + 4 + (members - 1) * 4;
    assert source[MPB_SIZE..MPB_SIZE + 4] == Part(source[..], MPB_SIZE, 4);
    size := Number(source[MPB_SIZE..MPB_SIZE + 4]) - remove * DISK_SIZE - mapSize;
  }

  // The image of EndRebuild with what is missed left out, and a checksum that belongs to it.
  function Built(x: Isw, v: nat): Octets
    requires CanCopy(x, v)
  {
    CutFits(x, v);
    Sealed(Cut(Encode(EndRebuild(x, v)), Missed(x, v)))
  }

  lemma CutFits(x: Isw, v: nat)
    requires CanCopy(x, v)
    ensures Shaped(EndRebuild(x, v))
    ensures var e, k := Encode(EndRebuild(x, v)), Missed(x, v);
      && IswLayout.HEADER_SIZE <= |e| - k && MpbSize(e) == |e| && MpbSize(Cut(e, k)) == |e|
  {
    hide Good, DevOk, EndRebuild, Missed, Number, Members, Cut, EncodeDevs, EncodeDisks;
    EndKeepsGood(x, v);
    MissedFits(x, v);
    OkOfGood(EndRebuild(x, v));
    OkSize(EndRebuild(x, v));
    CutKeepsSize(Encode(EndRebuild(x, v)), Missed(x, v));
  }

  /** update_metadata_after_rebuild, given the index of the rebuilt volume: the new image is
      that of EndRebuild, except that its last bytes are missing when the other volume is on
      more drives.
   */
  method AfterRebuild(source: array<byte>, v: nat, ghost x: Isw, ghost rest: Octets) returns (image: array<byte>)
    requires CanCopy(x, v) && source[..] == Encode(x) + rest
    modifies source
    ensures fresh(image) && image[..] == Built(x, v)
  {
    hide Good, DevOk, Encode, EncodeDevs, EncodeDisks, Before, After, Marked, Members, Number, Image, HoldsRaw,
         NextGeneration, EndDev, Copies, Missed, Cut, Sealed, MapSize, DropsDisk;
    CanEndGives(x, v);
    var two, vol0, vol1 := MarkVolume(source, v, x, rest);
    EndSizes(x, v, rest, source[..]);
    ImageCopies(x, v, source[..]);
    var remove, mapSize, size := NewSizes(source, v, two, vol0, vol1, x, rest);
    image := new byte[size](i => 0);
    var to, from := CopyDisks(image, source, v, remove, x);
    ghost var devs, k := EncodeDevs(EndDevs(x, v)), Missed(x, v);
    CopyVolumes(image, source, to, from, v, mapSize, two, devs[..|devs| - k]);
    CutIs(image[..], x.header + EncodeDisks(EndDisks(x, v)), devs, k);
    image[NUM_DISKS] := image[NUM_DISKS] - remove;
    ghost var h := x.header[NUM_DISKS := |EndDisks(x, v)|];
    FinishCut(image, size, h, EndDisks(x, v), EndDevs(x, v), k);
    CountIsOverwritten(x.header, EndDisks(x, v), EndDevs(x, v));
  }

  lemma CutIs(s: Octets, head: Octets, devs: Octets, k: nat)
    requires k <= |devs| && |s| == |head| + |devs| && s[..|s| - k] == head + devs[..|devs| - k]
    requires forall i :: |s| - k <= i < |s| ==> s[i] == 0
    ensures s == head + Cut(devs, k)
  {
    assert s == s[..|s| - k] + seq(k, i => 0);
  }

  // --------------------------------------------------------- when it is an image

  /** With both volumes on the same number of drives they are the image. */
  lemma SameMembersEnd(x: Isw, v: nat)
    requires CanEnd(x, v) && SameMembers(x.devs)
    ensures CanCopy(x, v) && Shaped(EndRebuild(x, v)) && Built(x, v) == Encode(EndRebuild(x, v))
  {
    hide EndRebuild, Encode, Built, CanEnd, SameMembers, Missed, CanCopy;
    NothingMissed(x, v);
    EndIsRightIff(x, v);
  }

  lemma NothingMissed(x: Isw, v: nat)
    requires CanEnd(x, v) && SameMembers(x.devs)
    ensures CanCopy(x, v) && Missed(x, v) == 0
  {
    hide Good, DevOk, Members;
    CanEndGives(x, v);
    if |x.devs| == 2 {
      assert Members(x.devs[1 - v]) == Members(x.devs[v]);
    }
  }

  lemma CutIsIff(e: Octets, k: nat)
    requires IswLayout.HEADER_SIZE <= |e| - k && MpbSize(e) == |e| && Sealed(e) == e
    ensures MpbSize(Cut(e, k)) == |e|
    ensures Sealed(Cut(e, k)) == e <==> forall i :: |e| - k <= i < |e| ==> e[i] == 0
  {
    hide Number, Bytes, Checksum;
    CutKeepsSize(e, k);
    var c := Cut(e, k);
    if forall i :: |e| - k <= i < |e| ==> e[i] == 0 {
      assert c == e;
    }
    if Sealed(c) == e {
      forall i | |e| - k <= i < |e| ensures e[i] == 0 {
        assert Sealed(c)[i] == c[i];
      }
    }
  }

  /** The bytes that the source builds are the image of EndRebuild exactly when what is
      missed is zero anyway.
   */
  lemma EndIsRightIff(x: Isw, v: nat)
    requires CanCopy(x, v)
    ensures Shaped(EndRebuild(x, v)) && Missed(x, v) <= |Encode(EndRebuild(x, v))|
    ensures var e := Encode(EndRebuild(x, v));
      Built(x, v) == e <==> forall i :: |e| - Missed(x, v) <= i < |e| ==> e[i] == 0
  {
    hide Good, DevOk, EndRebuild, Missed, Number, Bytes, Checksum, Members, Cut, Sealed, EncodeDevs, EncodeDisks;
    CutFits(x, v);
    EndKeepsGood(x, v);
    SealedGood(EndRebuild(x, v));
    CutIsIff(Encode(EndRebuild(x, v)), Missed(x, v));
  }

  lemma SealedGood(y: Isw)
    requires Good(y)
    ensures Ok(y) && (OkSize(y); Sealed(Encode(y)) == Encode(y))
  {
    hide EncodeDisks, EncodeDevs, Bytes;
    OkSize(y);
    var e := Encode(y);
    BytesOfNumber(Part(e, CHECK_SUM, 4));
    SplicePart(e, CHECK_SUM, 4);
  }

  lemma MissedFits(x: Isw, v: nat)
    requires CanCopy(x, v)
    ensures Missed(x, v) <= |EncodeDevs(EndDevs(x, v))|
    ensures |Encode(EndRebuild(x, v))|
         == IswLayout.HEADER_SIZE + DISK_SIZE * |EndDisks(x, v)| + |EncodeDevs(EndDevs(x, v))|
  {
    hide EncodeDevs, EncodeDev, DevOk, Good, EndDev, Before, Members, DevLength, MapSize;
    CanEndGives(x, v);
    KeptDevs(x, v);
    if |x.devs| == 2 {
      OtherLength(x.devs[1 - v], Members(x.devs[v]));
      KeptOther(x.devs[1 - v]);
    }
  }
}
