/** The on-disk image of Intel Software RAID, struct isw of
    lib/format/ataraid/isw.h: a fixed header, a table of disks, and volumes of
    variable length, each with one map or, while it is migrating, two.

    An image is described here by its pieces; Encode lays them out. The walk
    over the volumes, raiddev of lib/format/ataraid/isw.c, works on the bytes.
 */
module IswLayout {
  import Bits
  import ByteOrder
  import Buffers

  const HEADER_SIZE := 216      // sizeof(struct isw) - sizeof(struct isw_disk)
  const DISK_SIZE := 48         // sizeof(struct isw_disk)
  const HEAD_SIZE := 112        // sizeof(struct isw_dev) - sizeof(struct isw_map)
  const DEV_SIZE := 164         // sizeof(struct isw_dev)
  const MAP_FIXED := 48         // struct isw_map before disk_ord_tbl

  // Offsets in the header.
  const CHECK_SUM := 32
  const MPB_SIZE := 36
  const GENERATION_NUM := 44
  const NUM_DISKS := 56
  const NUM_RAID_DEVS := 57

  // Offsets in a volume and in a map.
  const MIGR_STATE := 88
  const MIGR_TYPE := 89
  const MAP_STATE := 14
  const RAID_LEVEL := 15
  const NUM_MEMBERS := 16
  const FAILED_DISK_NUM := 18

  type Octets = seq<Bits.byte>

  /** A volume: the part before its maps, and the maps with their disk tables. */
  datatype Dev = Dev(head: Octets, maps: seq<Octets>)

  datatype Isw = Isw(header: Octets, disks: seq<Octets>, devs: seq<Dev>)

  // map_size: a map with an order entry for each member
  function MapSize(members: nat): nat {
    MAP_FIXED + 4 * members
  }

  function Members(d: Dev): Bits.byte
    requires DevOk(d)
  {
    d.maps[0][NUM_MEMBERS]
  }

  predicate DevOk(d: Dev) {
    && |d.head| == HEAD_SIZE
    && 1 <= |d.maps| <= 2
    && d.head[MIGR_STATE] == |d.maps| - 1
    && |d.maps[0]| >= MAP_FIXED
    && d.maps[0][NUM_MEMBERS] >= 1
    && (forall k :: 0 <= k < |d.maps| ==> |d.maps[k]| == MapSize(d.maps[0][NUM_MEMBERS]))
  }

  function DevLength(d: Dev): nat
    requires DevOk(d)
  {
    HEAD_SIZE + |d.maps| * MapSize(Members(d))
  }

  function EncodeDev(d: Dev): (r: Octets)
    requires DevOk(d)
    ensures |r| == DevLength(d)
  {
    if |d.maps| == 1 then d.head + d.maps[0] else d.head + d.maps[0] + d.maps[1]
  }

  predicate DevsOk(devs: seq<Dev>) {
    forall i :: 0 <= i < |devs| ==> DevOk(devs[i])
  }

  function EncodeDevs(devs: seq<Dev>): Octets
    requires DevsOk(devs)
  {
    if devs == [] then [] else EncodeDev(devs[0]) + EncodeDevs(devs[1..])
  }

  predicate DisksOk(disks: seq<Octets>) {
    forall i :: 0 <= i < |disks| ==> |disks[i]| == DISK_SIZE
  }

  function EncodeDisks(disks: seq<Octets>): (r: Octets)
    requires DisksOk(disks)
    ensures |r| == DISK_SIZE * |disks|
  {
    if disks == [] then [] else disks[0] + EncodeDisks(disks[1..])
  }

  // The header counts the disks, which is all the walk needs.
  predicate Shaped(x: Isw) {
    && |x.header| == HEADER_SIZE
    && DisksOk(x.disks) && DevsOk(x.devs)
    && x.header[NUM_DISKS] == |x.disks|
  }

  function Encode(x: Isw): (r: Octets)
    requires Shaped(x)
    ensures |r| == HEADER_SIZE + DISK_SIZE * |x.disks| + |EncodeDevs(x.devs)|
  {
    x.header + EncodeDisks(x.disks) + EncodeDevs(x.devs)
  }

  // The image also counts its volumes and knows its own length.
  predicate Ok(x: Isw) {
    && Shaped(x)
    && x.header[NUM_RAID_DEVS] == |x.devs|
    && ByteOrder.Number(Buffers.Part(x.header, MPB_SIZE, 4)) == |Encode(x)|
  }

  // ---------------------------------------------------------------- the walk

  function At(s: Octets, k: nat): Bits.byte {
    if k < |s| then s[k] else 0
  }

  // advance_raiddev; the address computation is that of size_t.
  function Advance(s: Octets, o: nat): nat {
    var m := At(s, o + HEAD_SIZE + NUM_MEMBERS);
    o + (DEV_SIZE + 4 * m - 4) + if At(s, o + MIGR_STATE) != 0 then MAP_FIXED + 4 + 4 * m - 4 else 0
  }

  // raiddev: the offset of volume i.
  function Raiddev(s: Octets, i: nat): nat {
    if i == 0 then HEADER_SIZE + DISK_SIZE * At(s, NUM_DISKS) else Advance(s, Raiddev(s, i - 1))
  }

  lemma AdvancePastDev(pre: Octets, d: Dev, post: Octets)
    requires DevOk(d)
    ensures Advance(pre + EncodeDev(d) + post, |pre|) == |pre| + DevLength(d)
  {
    var s := pre + EncodeDev(d) + post;
    var e := EncodeDev(d);
    assert s[|pre| + MIGR_STATE] == e[MIGR_STATE] == d.head[MIGR_STATE];
    assert s[|pre| + HEAD_SIZE + NUM_MEMBERS] == e[HEAD_SIZE + NUM_MEMBERS] == d.maps[0][NUM_MEMBERS];
  }

  lemma {:induction false} EncodeDevsConcat(a: seq<Dev>, b: seq<Dev>)
    requires DevsOk(a) && DevsOk(b)
    ensures EncodeDevs(a + b) == EncodeDevs(a) + EncodeDevs(b)
  {
    if a == [] {
      assert a + b == b;
    } else {
      assert (a + b)[1..] == a[1..] + b;
      EncodeDevsConcat(a[1..], b);
    }
  }

  lemma OneDev(d: Dev)
    requires DevOk(d)
    ensures EncodeDevs([d]) == EncodeDev(d)
  {
    assert EncodeDevs([d][1..]) == [];
  }

  // Volume i lies after the volumes before it.
  lemma DevInImage(devs: seq<Dev>, i: nat)
    requires DevsOk(devs) && i < |devs|
    ensures EncodeDevs(devs) == EncodeDevs(devs[..i]) + EncodeDev(devs[i]) + EncodeDevs(devs[i + 1..])
    ensures EncodeDevs(devs[..i + 1]) == EncodeDevs(devs[..i]) + EncodeDev(devs[i])
  {
    hide EncodeDevs, EncodeDev, DevOk;
    var before, one, after := devs[..i], [devs[i]], devs[i + 1..];
    OneDev(devs[i]);
    EncodeDevsConcat(before, one);
    EncodeDevsConcat(before + one, after);
    assert devs == before + one + after;
    assert devs[..i + 1] == before + one;
  }

  // The image cut at volume i.
  function Before(x: Isw, i: nat): Octets
    requires Shaped(x) && i <= |x.devs|
  {
    x.header + EncodeDisks(x.disks) + EncodeDevs(x.devs[..i])
  }

  function After(x: Isw, i: nat): Octets
    requires Shaped(x) && i < |x.devs|
  {
    EncodeDevs(x.devs[i + 1..])
  }

  lemma CutAt(x: Isw, i: nat)
    requires Shaped(x) && i < |x.devs|
    ensures Encode(x) == Before(x, i) + EncodeDev(x.devs[i]) + After(x, i)
    ensures Before(x, i + 1) == Before(x, i) + EncodeDev(x.devs[i])
  {
    hide EncodeDevs, EncodeDev, EncodeDisks, DevOk;
    DevInImage(x.devs, i);
  }

  lemma WalkStart(x: Isw, rest: Octets)
    requires Shaped(x)
    ensures Raiddev(Encode(x) + rest, 0) == |Before(x, 0)|
  {
    assert x.devs[..0] == [];
    assert (Encode(x) + rest)[NUM_DISKS] == x.header[NUM_DISKS];
  }

  lemma WalkStep(x: Isw, rest: Octets, i: nat)
    requires Shaped(x) && i < |x.devs|
    ensures Advance(Encode(x) + rest, |Before(x, i)|) == |Before(x, i + 1)|
  {
    hide Encode, Before, After, EncodeDev, DevOk, Advance;
    CutAt(x, i);
    var pre, d, post := Before(x, i), EncodeDev(x.devs[i]), After(x, i) + rest;
    assert Encode(x) + rest == pre + d + post;
    AdvancePastDev(pre, x.devs[i], post);
  }

  lemma RaiddevStep(s: Octets, i: nat)
    ensures Raiddev(s, i + 1) == Advance(s, Raiddev(s, i))
  {
    hide Advance;
  }

  /** The walk finds volume i where Encode put it, whatever follows the image. */
  lemma {:induction false} WalkFinds(x: Isw, rest: Octets, i: nat)
    requires Shaped(x) && i <= |x.devs|
    ensures Raiddev(Encode(x) + rest, i) == |Before(x, i)|
    decreases i
  {
    hide Raiddev, Advance, Encode, Before, Shaped;
    if i == 0 {
      WalkStart(x, rest);
    } else {
      WalkFinds(x, rest, i - 1);
      WalkStep(x, rest, i - 1);
      RaiddevStep(Encode(x) + rest, i - 1);
    }
  }

  /** mpb_size is where the walk over all volumes ends. */
  lemma {:induction false} WalkEndsAtMpbSize(x: Isw, rest: Octets)
    requires Ok(x)
    ensures Raiddev(Encode(x) + rest, |x.devs|) == ByteOrder.Number(Buffers.Part(Encode(x) + rest, MPB_SIZE, 4))
  {
    WalkFinds(x, rest, |x.devs|);
    assert x.devs[..|x.devs|] == x.devs;
    assert Buffers.Part(Encode(x) + rest, MPB_SIZE, 4) == Buffers.Part(x.header, MPB_SIZE, 4);
  }
}
