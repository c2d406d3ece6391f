/** RAID sets as trees, and the sizes dmraid computes for them:
    lib/metadata/metadata.c (add_sectors, smallest_disk, count_devs,
    total_sectors) and lib/activate/activate.c (maximize, _smallest,
    _dm_raid_devs). Sets hold no spares and all their parts are usable; sums of
    sectors stay below 2^64.
 */
module RaidSets {
  import opened Rounding

  datatype Disk = Disk(path: nat, offset: nat, sectors: nat)

  // Parity stands for RAID 4 and 5.
  datatype Kind = Linear | Stripe | Mirror | Parity

  // sync says that the set is out of sync, and drive which one is rebuilt then; both matter
  // to mirrors only.
  datatype RaidSet =
    RaidSet(kind: Kind, stride: nat, maximize: bool, sync: bool, drive: int, sets: seq<RaidSet>, devs: seq<Disk>)

  // ------------------------------------------------------------ total_sectors

  function Min(a: nat, b: nat): nat {
    if a < b then a else b
  }

  // add_sectors
  function AddSectors(rs: RaidSet, sectors: nat, add: nat): nat {
    var whole := if rs.stride != 0 then RoundDown(add, rs.stride) else add;
    if rs.kind.Mirror? then (if sectors == 0 || sectors > whole then whole else sectors)
    else sectors + whole
  }

  const UNBOUNDED := 0xFFFF_FFFF_FFFF_FFFF

  function SmallestOf(devs: seq<Disk>): nat {
    if devs == [] then UNBOUNDED else Min(SmallestOf(devs[..|devs| - 1]), devs[|devs| - 1].sectors)
  }

  function AddDevs(rs: RaidSet, sectors: nat, k: nat): nat
    requires k <= |rs.devs|
  {
    if k == 0 then sectors
    else AddSectors(rs, AddDevs(rs, sectors, k - 1), if rs.maximize then rs.devs[k - 1].sectors
      else SmallestOf(rs.devs))
  }

  function AddSets(rs: RaidSet, k: nat): nat
    requires k <= |rs.sets|
    decreases rs, k
  {
    if k == 0 then 0 else AddSectors(rs, AddSets(rs, k - 1), Total(rs.sets[k - 1]))
  }

  // The capacity of a parity set is that of its parts but one.
  function LessParity(rs: RaidSet, sectors: nat): nat {
    var n := if |rs.sets| != 0 then |rs.sets| else |rs.devs|;
    if rs.kind.Parity? && n != 0 then
      QuotientBounds(sectors, n);
      sectors - Quotient(sectors, n)
    else sectors
  }

  function Total(rs: RaidSet): nat
    decreases rs, |rs.sets| + 1
  {
    LessParity(rs, AddDevs(rs, AddSets(rs, |rs.sets|), |rs.devs|))
  }

  // smallest_disk
  method SmallestDisk(rs: RaidSet) returns (ret: nat)
    ensures ret == SmallestOf(rs.devs)
  {
    ret := UNBOUNDED;
    for k := 0 to |rs.devs|
      invariant ret == SmallestOf(rs.devs[..k])
    {
      assert rs.devs[..k + 1][..k] == rs.devs[..k];
      ret := Min(ret, rs.devs[k].sectors);
    }
    assert rs.devs[..|rs.devs|] == rs.devs;
  }

  // total_sectors
  method TotalSectors(rs: RaidSet) returns (sectors: nat)
    ensures sectors == Total(rs)
    decreases rs
  {
    hide Quotient, AddSectors;
    sectors := 0;
    for k := 0 to |rs.sets|
      invariant sectors == AddSets(rs, k)
    {
      var t := TotalSectors(rs.sets[k]);
      sectors := AddSectors(rs, sectors, t);
    }
    var min := 0;
    if !rs.maximize {
      min := SmallestDisk(rs);
    }
    for k := 0 to |rs.devs|
      invariant sectors == AddDevs(rs, AddSets(rs, |rs.sets|), k)
    {
      sectors := AddSectors(rs, sectors, if rs.maximize then rs.devs[k].sectors else min);
    }
    var n := if |rs.sets| != 0 then |rs.sets| else |rs.devs|;
    if rs.kind.Parity? && n != 0 {
      QuotientBounds(sectors, n);
      sectors := sectors - Quotient(sectors, n);
    }
  }

  // -------------------------------------------------------------- components

  // The subsets and then the disks of a set.
  function Count(rs: RaidSet): nat {
    |rs.sets| + |rs.devs|
  }

  // What the set relies on when it maps onto a component.
  function SizeOf(rs: RaidSet, i: nat): nat
    requires i < Count(rs)
  {
    if i < |rs.sets| then Total(rs.sets[i]) else rs.devs[i - |rs.sets|].sectors
  }

  // maximize
  function Maximize(sectors: nat, last: nat, min: nat): nat {
    if sectors > min then Min(last, sectors) else last
  }

  function SmallestAmong(rs: RaidSet, min: nat, k: nat): nat
    requires k <= Count(rs)
  {
    if k == 0 then UNBOUNDED else Maximize(SizeOf(rs, k - 1), SmallestAmong(rs, min, k - 1), min)
  }

  // _smallest
  function Smallest(rs: RaidSet, min: nat): nat {
    var ret := SmallestAmong(rs, min, Count(rs));
    if ret == UNBOUNDED then 0 else ret
  }

  method FindSmallest(rs: RaidSet, min: nat) returns (ret: nat)
    ensures ret == Smallest(rs, min)
  {
    ret := UNBOUNDED;
    for k := 0 to |rs.sets|
      invariant ret == SmallestAmong(rs, min, k)
    {
      var t := TotalSectors(rs.sets[k]);
      ret := Maximize(t, ret, min);
    }
    for k := 0 to |rs.devs|
      invariant ret == SmallestAmong(rs, min, |rs.sets| + k)
    {
      ret := Maximize(rs.devs[k].sectors, ret, min);
    }
    ret := if ret == UNBOUNDED then 0 else ret;
  }

  // The components larger than a minimum, in order.
  function Above(rs: RaidSet, min: nat, k: nat): (r: seq<nat>)
    requires k <= Count(rs)
    ensures |r| <= k && forall j :: 0 <= j < |r| ==> r[j] < k
  {
    if k == 0 then []
    else Above(rs, min, k - 1) + if SizeOf(rs, k - 1) > min then [k - 1] else []
  }

  // _dm_raid_devs
  method CountAbove(rs: RaidSet, min: nat) returns (ret: nat)
    ensures ret == |Above(rs, min, Count(rs))|
  {
    ret := 0;
    for k := 0 to |rs.sets|
      invariant ret == |Above(rs, min, k)|
    {
      var t := TotalSectors(rs.sets[k]);
      if t > min {
        ret := ret + 1;
      }
    }
    for k := 0 to |rs.devs|
      invariant ret == |Above(rs, min, |rs.sets| + k)|
    {
      if rs.devs[k].sectors > min {
        ret := ret + 1;
      }
    }
  }

  ghost predicate Bounded(rs: RaidSet) {
    forall i :: 0 <= i < Count(rs) ==> SizeOf(rs, i) < UNBOUNDED
  }

  lemma {:induction false} SmallestAmongIs(rs: RaidSet, min: nat, k: nat)
    requires Bounded(rs) && k <= Count(rs)
    ensures var r := SmallestAmong(rs, min, k);
      && r <= UNBOUNDED
      && (forall i :: 0 <= i < k && SizeOf(rs, i) > min ==> r <= SizeOf(rs, i))
      && (r != UNBOUNDED ==> r > min && exists i :: 0 <= i < k && SizeOf(rs, i) == r)
  {
    if k > 0 {
      SmallestAmongIs(rs, min, k - 1);
    }
  }

  /** _smallest is the least size above the minimum, or 0 when there is none. */
  lemma {:induction false} SmallestIs(rs: RaidSet, min: nat)
    requires Bounded(rs)
    ensures var r := Smallest(rs, min);
      && (r == 0 <==> forall i :: 0 <= i < Count(rs) ==> SizeOf(rs, i) <= min)
      && (r != 0 ==> r > min && (exists i :: 0 <= i < Count(rs) && SizeOf(rs, i) == r)
                     && forall i :: 0 <= i < Count(rs) && SizeOf(rs, i) > min ==> r <= SizeOf(rs, i))
  {
    SmallestAmongIs(rs, min, Count(rs));
  }
}
