/** A whole rebuild: starting it, and ending it on each volume. */
module IswRebuild {
  import Bits
  import ByteOrder
  import opened IswLayout
  import opened IswEdits
  import opened IswRuns

  // What a rebuild leaves of a volume: one map in order, nothing failed.
  function Settled(d: Dev, disks: nat): (r: Dev)
    requires DevOk(d)
    ensures DevOk(r) && |r.maps| == 1 && Members(r) == Members(d)
  {
    Dev(d.head[MIGR_STATE := 0][MIGR_TYPE := 0], [NewMap(d.maps[0], ISW_DEV_NONE_FAILED, disks)])
  }

  lemma EndAfterStart(d: Dev, failed: Bits.byte, disks: nat)
    requires DevOk(d)
    ensures EndDev(StartDev(d, failed, disks)) == Settled(d, disks)
  {
    hide OrderTable;
    var e := StartDev(d, failed, disks);
    assert e.head[MIGR_STATE := 0][MIGR_TYPE := 0] == d.head[MIGR_STATE := 0][MIGR_TYPE := 0];
    assert e.maps[0][FAILED_DISK_NUM := ISW_DEV_NONE_FAILED] == NewMap(d.maps[0], ISW_DEV_NONE_FAILED, disks);
  }

  lemma StartIs(x: Isw, f: nat, disk: Octets)
    requires CanStart(x, f) && |disk| == DISK_SIZE
    ensures Good(StartRebuild(x, f, disk))
    ensures StartRebuild(x, f, disk).disks == x.disks[f := disk] + [FailedEntry(x.disks[f])]
    ensures StartRebuild(x, f, disk).devs == StartDevs(x.devs, f, |x.disks|)
    ensures Generation(StartRebuild(x, f, disk)) == (Generation(x) + 1) % ByteOrder.B4
  {
    hide Good, DevOk, Image, FailedEntry;
    StartKeepsGood(x, f, disk);
  }

  lemma EndIs(x: Isw, v: nat)
    requires CanEnd(x, v)
    ensures Good(EndRebuild(x, v))
    ensures EndRebuild(x, v).disks == EndDisks(x, v) && EndRebuild(x, v).devs == EndDevs(x, v)
    ensures Generation(EndRebuild(x, v)) == (Generation(x) + 1) % ByteOrder.B4
  {
    hide Good, DevOk, Image, EndDev, DropsDisk;
    EndKeepsGood(x, v);
  }

  lemma StartDevIs(d: Dev, failed: Bits.byte, disks: nat)
    requires DevOk(d)
    ensures var r := StartDev(d, failed, disks); |r.maps| == 2 && r.head[MIGR_TYPE] == 1 && r.head[MIGR_STATE] == 1
  {
  }

  lemma SettledLength(d: Dev, disks: nat)
    requires DevOk(d) && |d.maps| == 1
    ensures DevLength(Settled(d, disks)) == DevLength(d)
  {
    hide NewMap;
  }

  predicate Resting(devs: seq<Dev>) {
    forall i :: 0 <= i < |devs| ==> |devs[i].maps| == 1
  }

  // One volume: StartThenEnd is defined by the two edits.
  lemma EndIsEnabled(x: Isw, f: nat, disk: Octets, v: nat)
    requires CanStart(x, f) && |disk| == DISK_SIZE && v < |x.devs|
    ensures CanEnd(StartRebuild(x, f, disk), v)
  {
    hide Good, DevOk, StartRebuild, FailedEntry, StartDev, Members;
    GoodParts(x);
    var y := StartRebuild(x, f, disk);
    StartIs(x, f, disk);
    StartDevIs(x.devs[v], f, |x.disks|);
  }

  /** Starting a rebuild and ending it on the only volume puts the new disk in the
      place of the failed one, changes no other disk, leaves one map in order, and
      brings the image back to its length, two generations later.
   */
  lemma RebuildOneVolume(x: Isw, f: nat, disk: Octets)
    requires CanStart(x, f) && |disk| == DISK_SIZE && |x.devs| == 1
    ensures CanEnd(StartRebuild(x, f, disk), 0)
    ensures var y := EndRebuild(StartRebuild(x, f, disk), 0);
      && Good(y) && y.disks == x.disks[f := disk]
      && y.devs == [Settled(x.devs[0], |x.disks|)]
      && Generation(y) == (Generation(x) + 2) % ByteOrder.B4
      && (Resting(x.devs) ==> |Encode(y)| == |Encode(x)|)
  {
    hide Good, DevOk, StartRebuild, EndRebuild, StartDev, EndDev, FailedEntry, Members, Settled, Generation, EncodeDev;
    GoodParts(x);
    EndIsEnabled(x, f, disk, 0);
    var s := StartRebuild(x, f, disk);
    StartIs(x, f, disk);
    EndIs(s, 0);
    EndAfterStart(x.devs[0], f, |x.disks|);
    assert s.disks[..|s.disks| - 1] == x.disks[f := disk];
    if Resting(x.devs) {
      SettledLength(x.devs[0], |x.disks|);
      OneDev(x.devs[0]);
      OneDev(Settled(x.devs[0], |x.disks|));
      assert x.devs == [x.devs[0]];
    }
  }

  predicate TwoVolumes(x: Isw, f: nat, disk: Octets) {
    CanStart(x, f) && |disk| == DISK_SIZE && |x.devs| == 2
  }

  lemma FirstEnd(x: Isw, f: nat, disk: Octets, first: nat)
    requires TwoVolumes(x, f, disk) && first < 2
    ensures CanEnd(StartRebuild(x, f, disk), first)
    ensures CanEnd(EndRebuild(StartRebuild(x, f, disk), first), 1 - first)
  {
    hide Good, DevOk, StartRebuild, EndRebuild, StartDev, EndDev, FailedEntry, Members;
    GoodParts(x);
    EndIsEnabled(x, f, disk, first);
    var s := StartRebuild(x, f, disk);
    StartIs(x, f, disk);
    StartDevIs(x.devs[1 - first], f, |x.disks|);
    EndIs(s, first);
  }

  // The image between the ends of the two volumes, and after both.
  function HalfRebuilt(x: Isw, f: nat, disk: Octets, first: nat): Isw
    requires TwoVolumes(x, f, disk) && first < 2
  {
    FirstEnd(x, f, disk, first);
    EndRebuild(StartRebuild(x, f, disk), first)
  }

  function Rebuilt(x: Isw, f: nat, disk: Octets, first: nat): Isw
    requires TwoVolumes(x, f, disk) && first < 2
  {
    FirstEnd(x, f, disk, first);
    EndRebuild(HalfRebuilt(x, f, disk, first), 1 - first)
  }

  lemma HalfRebuiltIs(x: Isw, f: nat, disk: Octets, first: nat)
    requires TwoVolumes(x, f, disk) && first < 2
    ensures var y := HalfRebuilt(x, f, disk, first);
      && CanEnd(y, 1 - first) && Good(x)
      && y.disks == x.disks[f := disk] + (if first == 1 then [] else [FailedEntry(x.disks[f])])
      && y.devs == StartDevs(x.devs, f, |x.disks|)[first := Settled(x.devs[first], |x.disks|)]
      && Generation(y) == (Generation(x) + 2) % ByteOrder.B4
  {
    hide Good, DevOk, StartRebuild, EndRebuild, StartDev, EndDev, FailedEntry, Members, Settled, Generation;
    GoodParts(x);
    var n := |x.disks|;
    FirstEnd(x, f, disk, first);
    var s := StartRebuild(x, f, disk);
    StartIs(x, f, disk);
    StartDevIs(x.devs[0], f, n);
    StartDevIs(x.devs[1], f, n);
    EndAfterStart(x.devs[first], f, n);
    EndIs(s, first);
    EndDevIs(s.devs[first]);
    assert s.disks[..|s.disks| - 1] == x.disks[f := disk];
  }

  lemma RebuiltIs(x: Isw, f: nat, disk: Octets, first: nat)
    requires TwoVolumes(x, f, disk) && first < 2
    ensures var z := Rebuilt(x, f, disk, first);
      && Good(z) && Good(x)
      && z.disks == (if first == 0 then x.disks[f := disk] else x.disks[f := disk][..|x.disks| - 1])
      && z.devs == [Settled(x.devs[0], |x.disks|), Settled(x.devs[1], |x.disks|)]
      && Generation(z) == (Generation(x) + 3) % ByteOrder.B4
  {
    hide Good, DevOk, HalfRebuilt, EndRebuild, StartDev, EndDev, FailedEntry, Members, Settled, Generation;
    GoodParts(x);
    var n := |x.disks|;
    var y := HalfRebuilt(x, f, disk, first);
    HalfRebuiltIs(x, f, disk, first);
    EndAfterStart(x.devs[1 - first], f, n);
    EndIs(y, 1 - first);
    SettledType(x.devs[first], n);
    SettledType(x.devs[1 - first], n);
  }

  lemma SettledType(d: Dev, disks: nat)
    requires DevOk(d)
    ensures Settled(d, disks).head[MIGR_TYPE] == 0
  {
    hide NewMap;
  }

  lemma EndDevIs(d: Dev)
    requires DevOk(d)
    ensures EndDev(d).head[MIGR_TYPE] == 0 && |EndDev(d).maps| == 1 && Members(EndDev(d)) == Members(d)
  {
  }

  lemma TwoDevs(a: Dev, b: Dev)
    requires DevOk(a) && DevOk(b)
    ensures |EncodeDevs([a, b])| == DevLength(a) + DevLength(b)
  {
    hide DevOk, EncodeDev;
    assert [a, b][1..] == [b];
    OneDev(b);
  }

  /** With two volumes the disk table comes back exactly when the volumes finish in
      index order; otherwise the failed disk is forgotten while volume 0 is still
      rebuilding, and the second end takes the last real disk away.
   */
  lemma RebuildTwoVolumes(x: Isw, f: nat, disk: Octets, first: nat)
    requires TwoVolumes(x, f, disk) && first < 2
    ensures var z := Rebuilt(x, f, disk, first);
      && Good(z) && Good(x) && Generation(z) == (Generation(x) + 3) % ByteOrder.B4
      && z.devs == [Settled(x.devs[0], |x.disks|), Settled(x.devs[1], |x.disks|)]
      && (z.disks == x.disks[f := disk] <==> first == 0)
      && (first == 1 ==> HalfRebuilt(x, f, disk, 1).disks == x.disks[f := disk])
      && (first == 1 ==> z.disks == x.disks[f := disk][..|x.disks| - 1])
      && (first == 0 && Resting(x.devs) ==> |Encode(z)| == |Encode(x)|)
  {
    hide Good, DevOk, Rebuilt, HalfRebuilt, Members, Settled, Generation, DevLength, EncodeDevs;
    GoodParts(x);
    RebuiltIs(x, f, disk, first);
    HalfRebuiltIs(x, f, disk, first);
    if Resting(x.devs) {
      SettledLength(x.devs[0], |x.disks|);
      SettledLength(x.devs[1], |x.disks|);
      TwoDevs(x.devs[0], x.devs[1]);
      assert x.devs == [x.devs[0], x.devs[1]];
      TwoDevs(Settled(x.devs[0], |x.disks|), Settled(x.devs[1], |x.disks|));
    }
  }

  // ------------------------------------------------------- the fixed buffer

  const IMAGE_BUFFER := 1024   // 2 * ISW_DISK_BLOCK_SIZE

  // Every volume lies on every disk, as the editors that create volumes write them.
  predicate Spanning(x: Isw)
    requires DevsOk(x.devs)
  {
    forall i :: 0 <= i < |x.devs| ==> Members(x.devs[i]) == |x.disks|
  }

  lemma StartDevLength(d: Dev, failed: Bits.byte, disks: nat)
    requires DevOk(d)
    ensures DevLength(StartDev(d, failed, disks)) == HEAD_SIZE + 2 * MapSize(Members(d))
  {
  }

  /** The image that the start of a rebuild builds fits its buffer of two sectors
      exactly for nine disks with one volume and five disks with two.
   */
  lemma StartFitsBuffer(x: Isw, f: nat, disk: Octets)
    requires CanStart(x, f) && |disk| == DISK_SIZE && Spanning(x)
    ensures |Encode(StartRebuild(x, f, disk))| <= IMAGE_BUFFER <==> |x.disks| <= (if |x.devs| == 1 then 9 else 5)
  {
    hide Good, DevOk, StartRebuild, FailedEntry, StartDev, Members, DevLength;
    GoodParts(x);
    StartIs(x, f, disk);
    var devs := StartDevs(x.devs, f, |x.disks|);
    StartDevLength(x.devs[0], f, |x.disks|);
    if |x.devs| == 1 {
      assert devs == [devs[0]];
      OneDev(devs[0]);
    } else {
      StartDevLength(x.devs[1], f, |x.disks|);
      assert devs == [devs[0], devs[1]];
      TwoDevs(devs[0], devs[1]);
    }
  }

  // Where the store of the second map's state goes: the pointer is advanced by
  // map_size structures of 52 bytes, from the first map of a volume at o.
  function MapStateStore(o: nat, members: nat): nat {
    o + HEAD_SIZE + (MAP_FIXED + 4) * MapSize(members) + MAP_STATE
  }

  /** That store never reaches the buffer, so the second map keeps the state of the
      first, normal, whatever the level of the volume.
   */
  lemma SecondMapStaysNormal(x: Isw, f: nat, disk: Octets, v: nat)
    requires CanStart(x, f) && |disk| == DISK_SIZE && v < |x.devs|
    ensures MapStateStore(|Before(StartRebuild(x, f, disk), v)|, Members(x.devs[v])) >= IMAGE_BUFFER
    ensures var d := StartRebuild(x, f, disk).devs[v];
      DevOk(d) && d.maps[1][MAP_STATE] == 0 && d.maps[1] == d.maps[0]
  {
    hide Good, StartRebuild, FailedEntry, Before;
    GoodParts(x);
    StartIs(x, f, disk);
  }
}
