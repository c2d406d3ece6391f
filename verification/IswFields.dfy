/** The structures of lib/format/ataraid/isw.h as they are declared, and what the edits of an
    image leave in their fields.
 */
module IswFields {
  import Bits
  import opened ByteOrder
  import opened Buffers
  import opened Structs
  import opened IswLayout
  import opened IswEdits
  import opened IswRuns
  import opened IswRebuild

  // struct isw
  const IMAGE_MEMBERS: seq<Group> := [
    Chars(32),       // sig
    Words(6, 4),     // check_sum, mpb_size, family_num, generation_num, error_log_size, attributes
    Chars(4),        // num_disks, num_raid_devs, error_log_pos, fill
    Words(4, 4),     // cache_size, orig_family_num, power_cycle_count, bbm_log_size
    Words(35, 4)]    // filler

  // struct isw_disk: serial; totalBlocks, scsiId, status, owner_cfg_num; filler
  const DISK_MEMBERS: seq<Group> := [Chars(16), Words(4, 4), Words(4, 4)]

  // struct isw_dev without its maps
  const DEV_MEMBERS: seq<Group> := [
    Chars(16),       // volume
    Words(4, 4),     // SizeLow, SizeHigh, status, reserved_blocks
    Chars(4),        // migr_priority, num_sub_vol, tid, cng_master_disk
    Words(1, 2),     // cache_policy
    Chars(2),        // cng_state, cng_sub_state
    Words(10, 4),    // filler
    Words(2, 4),     // vol.curr_migr_unit, vol.check_point_id
    Chars(4),        // vol.migr_state, vol.migr_type, vol.dirty, vol.fs_state
    Words(2, 2),     // vol.verify_errors, vol.verify_bad_blocks
    Words(4, 4)]     // vol.filler

  // struct isw_map without its order table
  const MAP_MEMBERS: seq<Group> := [
    Words(3, 4),     // pba_of_lba0, blocks_per_member, num_data_stripes
    Words(1, 2),     // blocks_per_strip
    Chars(6),        // map_state, raid_level, num_members, num_domains, failed_disk_num, ddf
    Words(7, 4)]     // filler

  /** The sizes and the offsets that the code computes with are those of the declarations. */
  lemma ImageOffsets()
    ensures var ms := IMAGE_MEMBERS;
      && Total(ms) == IswLayout.HEADER_SIZE && Offset(ms, 1) == CHECK_SUM && CHECK_SUM + 4 == MPB_SIZE
      && MPB_SIZE + 4 == FAMILY_NUM && FAMILY_NUM + 4 == GENERATION_NUM && GENERATION_NUM + 8 == ATTRIBUTES
      && Offset(ms, 2) == NUM_DISKS && NUM_DISKS + 1 == NUM_RAID_DEVS
      && Offset(ms, 3) + 4 == ORIG_FAMILY_NUM && ORIG_FAMILY_NUM + 8 == BBM_LOG_SIZE
  {
    var ms := IMAGE_MEMBERS;
    assert Offset(ms, 1) == 32 && Offset(ms, 2) == 56 && Offset(ms, 3) == 60 && Offset(ms, 4) == 76;
  }

  lemma DiskOffsets()
    ensures var ms := DISK_MEMBERS;
      Total(ms) == DISK_SIZE && Offset(ms, 1) + 4 == DISK_SCSI_ID && DISK_SCSI_ID + 4 == DISK_STATUS
  {
    assert Offset(DISK_MEMBERS, 1) == 16 && Offset(DISK_MEMBERS, 2) == 32;
  }

  lemma DevOffsets()
    ensures var ms := DEV_MEMBERS;
      Total(ms) == HEAD_SIZE && Offset(ms, 7) == MIGR_STATE && MIGR_STATE + 1 == MIGR_TYPE
  {
    var ms := DEV_MEMBERS;
    assert Offset(ms, 1) == 16 && Offset(ms, 2) == 32 && Offset(ms, 3) == 36 && Offset(ms, 4) == 38;
    assert Offset(ms, 5) == 40 && Offset(ms, 6) == 80 && Offset(ms, 7) == 88 && Offset(ms, 8) == 92;
    assert Offset(ms, 9) == 96;
  }

  // A map takes four more bytes for each member.
  lemma MapOffsets()
    ensures var ms := MAP_MEMBERS;
      && Total(ms) == MAP_FIXED && Offset(ms, 2) == MAP_STATE && MAP_STATE + 1 == RAID_LEVEL
      && RAID_LEVEL + 1 == NUM_MEMBERS && NUM_MEMBERS + 2 == FAILED_DISK_NUM
      && HEAD_SIZE + MAP_FIXED + 4 == DEV_SIZE
  {
    var ms := MAP_MEMBERS;
    assert Offset(ms, 1) == 12 && Offset(ms, 2) == 14 && Offset(ms, 3) == 20;
  }

  /** The store of the second map's state counts the bytes of a map in whole structures, each with
      one entry of the order table, from the first map of a volume at o.
   */
  lemma StoreOffset(o: nat, members: nat)
    ensures var entry, size := 4, Total(MAP_MEMBERS);
      MapStateStore(o, members)
      == o + Total(DEV_MEMBERS) + (size + entry * members) * (size + entry) + Offset(MAP_MEMBERS, 2)
  {
    DevOffsets();
    MapOffsets();
  }

  // ------------------------------------------------------------ the fields

  // The same bytes but for some.
  predicate SameBut(a: Octets, b: Octets, places: set<nat>) {
    |a| == |b| && forall k: nat :: k < |a| && k !in places ==> a[k] == b[k]
  }

  // The j-th entry of the order table of a map.
  function OrderOf(m: Octets, j: nat): nat
    requires MAP_FIXED + 4 * j + 4 <= |m|
  {
    Number(Part(m, MAP_FIXED + 4 * j, 4))
  }

  // A map for so many disks: each member has the disk of its number, or the first one.
  predicate Ordered(m: Octets, members: nat, disks: nat) {
    |m| == MAP_FIXED + 4 * members && forall j :: 0 <= j < members ==> OrderOf(m, j) == if j < disks then j else 0
  }

  lemma {:induction false} OrderEntry(m: nat, disks: nat, j: nat)
    requires j < m && disks < B4
    ensures Number(Part(OrderTable(m, disks), 4 * j, 4)) == if j < disks then j else 0
  {
    hide Number, Bytes, OrderTable, Part;
    var v := if m <= disks then m - 1 else 0;
    OrderEnds(m, disks);
    if j == m - 1 {
      NumberOfU32(v);
      PartAtEnd(OrderTable(m - 1, disks), Bytes(v, 4));
    } else {
      OrderEntry(m - 1, disks, j);
      PartBefore(OrderTable(m - 1, disks), Bytes(v, 4), 4 * j, 4);
    }
  }

  lemma OrderEnds(m: nat, disks: nat)
    requires m > 0
    ensures OrderTable(m, disks) == OrderTable(m - 1, disks) + Bytes(if m <= disks then m - 1 else 0, 4)
  {
    hide Bytes;
  }

  lemma PartAtEnd(s: Octets, t: Octets)
    ensures Part(s + t, |s|, |t|) == t
  {
  }

  lemma PartBefore(s: Octets, t: Octets, off: nat, n: nat)
    requires off + n <= |s|
    ensures Part(s + t, off, n) == Part(s, off, n)
  {
  }

  lemma NewMapFields(source: Octets, failed: Bits.byte, disks: nat)
    requires |source| >= MAP_FIXED && disks < B4
    ensures var m := NewMap(source, failed, disks);
      && Ordered(m, source[NUM_MEMBERS], disks)
      && SameBut(m[..MAP_FIXED], source[..MAP_FIXED], {MAP_STATE, FAILED_DISK_NUM})
      && m[MAP_STATE] == 0 && m[FAILED_DISK_NUM] == failed
  {
    hide OrderTable, Number;
    var m, n := NewMap(source, failed, disks), source[NUM_MEMBERS];
    forall j | 0 <= j < n ensures OrderOf(m, j) == if j < disks then j else 0 {
      OrderEntry(n, disks, j);
      assert Part(m, MAP_FIXED + 4 * j, 4) == Part(OrderTable(n, disks), 4 * j, 4);
    }
  }

  // A volume that is being rebuilt onto disk f: two equal maps, and the state and type of the
  // migration are all that changed in its head.
  predicate BeingRebuilt(before: Dev, d: Dev, f: Bits.byte, disks: nat)
    requires DevOk(before) && DevOk(d)
  {
    && SameBut(d.head, before.head, {MIGR_STATE, MIGR_TYPE}) && d.head[MIGR_STATE] == 1 && d.head[MIGR_TYPE] == 1
    && |d.maps| == 2 && d.maps[0] == d.maps[1] && Ordered(d.maps[0], Members(before), disks)
    && SameBut(d.maps[0][..MAP_FIXED], before.maps[0][..MAP_FIXED], {MAP_STATE, FAILED_DISK_NUM})
    && d.maps[0][MAP_STATE] == 0 && d.maps[0][FAILED_DISK_NUM] == f
  }

  // A volume whose rebuild has ended: the first map is left, and nothing has failed.
  predicate AtRest(before: Dev, d: Dev)
    requires DevOk(before) && DevOk(d)
  {
    && SameBut(d.head, before.head, {MIGR_STATE, MIGR_TYPE}) && d.head[MIGR_STATE] == 0 && d.head[MIGR_TYPE] == 0
    && |d.maps| == 1 && SameBut(d.maps[0], before.maps[0], {FAILED_DISK_NUM}) && d.maps[0][FAILED_DISK_NUM] == 255
  }

  lemma StartDevFields(d: Dev, f: Bits.byte, disks: nat)
    requires DevOk(d) && disks < B4
    ensures BeingRebuilt(d, StartDev(d, f, disks), f, disks)
  {
    hide Ordered;
    NewMapFields(d.maps[0], f, disks);
  }

  lemma EndDevFields(d: Dev)
    requires DevOk(d)
    ensures AtRest(d, EndDev(d))
  {
  }

  // The entry of the failed disk, behind the others: no SCSI id, and configured.
  predicate FailedDisk(before: Octets, e: Octets)
    requires |before| == DISK_SIZE
  {
    && |e| == DISK_SIZE && e[..DISK_SCSI_ID] == before[..DISK_SCSI_ID]
    && e[DISK_STATUS + 4..] == before[DISK_STATUS + 4..]
    && Number(Part(e, DISK_SCSI_ID, 4)) == 0xFFFF_FFFF && Number(Part(e, DISK_STATUS, 4)) == 2
  }

  lemma FailedEntryFields(e: Octets)
    requires |e| == DISK_SIZE
    ensures FailedDisk(e, FailedEntry(e))
  {
    hide Number, Bytes;
    var a := Put(e, DISK_SCSI_ID, UNKNOWN_SCSI_ID, 4);
    var r := FailedEntry(e);
    NumberOfU32(UNKNOWN_SCSI_ID);
    NumberOfU32(CONFIGURED_DISK);
    PartOfSplice(e, DISK_SCSI_ID, Bytes(UNKNOWN_SCSI_ID, 4));
    PartOfSplice(a, DISK_STATUS, Bytes(CONFIGURED_DISK, 4));
    assert Part(r, DISK_SCSI_ID, 4) == Part(a, DISK_SCSI_ID, 4);
  }

  /** The start of a rebuild, by fields: the new disk is in the place of the failed one, whose
      entry is marked and last; every volume is being rebuilt.
   */
  lemma StartFields(x: Isw, f: nat, disk: Octets)
    requires CanStart(x, f) && |disk| == DISK_SIZE
    ensures var y, n := StartRebuild(x, f, disk), |x.disks|;
      && DisksOk(x.disks) && DevsOk(x.devs) && DevsOk(y.devs)
      && |y.disks| == n + 1 && (forall k :: 0 <= k < n ==> y.disks[k] == if k == f then disk else x.disks[k])
      && FailedDisk(x.disks[f], y.disks[n])
      && |y.devs| == |x.devs| && forall i :: 0 <= i < |x.devs| ==> BeingRebuilt(x.devs[i], y.devs[i], f, n)
  {
    hide Good, DevOk, StartRebuild, StartDev, FailedEntry, BeingRebuilt, FailedDisk;
    GoodParts(x);
    StartIs(x, f, disk);
    FailedEntryFields(x.disks[f]);
    forall i | 0 <= i < |x.devs| ensures BeingRebuilt(x.devs[i], StartDev(x.devs[i], f, |x.disks|), f, |x.disks|) {
      StartDevFields(x.devs[i], f, |x.disks|);
    }
  }

  /** The end of a rebuild, by fields: the volume is at rest, the other one as before, and the
      entry of the failed disk is gone unless volume 0 is done and volume 1 still being rebuilt.
   */
  lemma EndFields(x: Isw, v: nat)
    requires CanEnd(x, v)
    ensures var y, n := EndRebuild(x, v), |x.disks|;
      && DevsOk(x.devs) && DevsOk(y.devs) && |y.devs| == |x.devs| && AtRest(x.devs[v], y.devs[v])
      && (forall i :: 0 <= i < |x.devs| && i != v ==> y.devs[i] == x.devs[i])
      && y.disks == if |x.devs| == 2 && y.devs[0].head[MIGR_TYPE] == 0 && y.devs[1].head[MIGR_TYPE] != 0 then x.disks
                    else x.disks[..n - 1]
  {
    hide Good, DevOk, EndRebuild, EndDev, AtRest;
    GoodParts(x);
    EndIs(x, v);
    EndDevFields(x.devs[v]);
    HeadLength(EndRebuild(x, v).devs);
  }

  lemma HeadLength(devs: seq<Dev>)
    requires DevsOk(devs)
    ensures forall i :: 0 <= i < |devs| ==> |devs[i].head| == HEAD_SIZE
  {
  }
}
