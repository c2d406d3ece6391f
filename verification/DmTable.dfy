/** The device-mapper tables of RAID sets: dm_linear, dm_raid0, dm_raid1 and the
    size of dm_raid45 in lib/activate/activate.c. A table is the list of its
    records; a record names components of the set and sectors inside them.
 */
module DmTable {
  import opened Rounding
  import opened RaidSets

  datatype Target = Target(comp: nat, offset: nat)

  datatype Record =
    | LinearRec(start: nat, length: nat, to: Target)
    | StripedRec(start: nat, length: nat, stride: nat, targets: seq<Target>)
    | MirrorRec(start: nat, length: nat, region: nat, sync: bool, legs: seq<Target>)

  // Arithmetic of 64-bit words.
  function Wrap64(x: int): nat {
    x % 0x1_0000_0000_0000_0000
  }

  // ---------------------------------------------------------------- dm_linear

  function LinearStart(rs: RaidSet, k: nat): nat
    requires k <= Count(rs)
  {
    if k == 0 then 0 else LinearStart(rs, k - 1) + SizeOf(rs, k - 1)
  }

  function LinearTable(rs: RaidSet, k: nat): (r: seq<Record>)
    requires k <= Count(rs)
    ensures |r| == k
  {
    if k == 0 then []
    else LinearTable(rs, k - 1) + [LinearRec(LinearStart(rs, k - 1), SizeOf(rs, k - 1), Target(k - 1, 0))]
  }

  method DmLinear(rs: RaidSet) returns (table: seq<Record>)
    ensures table == LinearTable(rs, Count(rs))
  {
    table := [];
    var start := 0;
    for k := 0 to |rs.sets|
      invariant start == LinearStart(rs, k) && table == LinearTable(rs, k)
    {
      var sectors := TotalSectors(rs.sets[k]);
      table := table + [LinearRec(start, sectors, Target(k, 0))];
      start := start + sectors;
    }
    for k := 0 to |rs.devs|
      invariant start == LinearStart(rs, |rs.sets| + k) && table == LinearTable(rs, |rs.sets| + k)
    {
      table := table + [LinearRec(start, rs.devs[k].sectors, Target(|rs.sets| + k, 0))];
      start := start + rs.devs[k].sectors;
    }
  }

  // ----------------------------------------------------------------- dm_raid0

  function TargetsAt(comps: seq<nat>, offset: nat): (r: seq<Target>)
    ensures |r| == |comps| && forall j :: 0 <= j < |r| ==> r[j] == Target(comps[j], offset)
  {
    seq(|comps|, j requires 0 <= j < |comps| => Target(comps[j], offset))
  }

  // _dm_raid0_bol and _dm_raid0_eol; the products are those of 64-bit words.
  function Layer(rs: RaidSet, last: nat, min: nat): Record
    requires |Above(rs, last, Count(rs))| > 0
  {
    var comps := Above(rs, last, Count(rs));
    var n := |comps|;
    var start, length := Wrap64(last * n), Wrap64((RoundDown(min, rs.stride) - last) * n);
    if n > 1 then StripedRec(start, length, rs.stride, TargetsAt(comps, last))
    else LinearRec(start, length, Target(comps[0], last))
  }

  lemma {:induction false} AboveIs(rs: RaidSet, min: nat, k: nat)
    requires k <= Count(rs)
    ensures forall i :: 0 <= i < k ==> (i in Above(rs, min, k) <==> SizeOf(rs, i) > min)
    ensures forall a, b :: 0 <= a < b < |Above(rs, min, k)| ==> Above(rs, min, k)[a] < Above(rs, min, k)[b]
  {
    if k > 0 {
      AboveIs(rs, min, k - 1);
    }
  }

  // A larger minimum leaves fewer components.
  lemma {:induction false} AboveShrinks(rs: RaidSet, a: nat, b: nat, k: nat)
    requires a <= b && k <= Count(rs)
    ensures |Above(rs, b, k)| <= |Above(rs, a, k)|
    ensures (exists i :: 0 <= i < k && a < SizeOf(rs, i) <= b) ==> |Above(rs, b, k)| < |Above(rs, a, k)|
  {
    if k > 0 {
      AboveShrinks(rs, a, b, k - 1);
    }
  }

  lemma SmallestHasComponents(rs: RaidSet, last: nat)
    requires Bounded(rs) && Smallest(rs, last) != 0
    ensures |Above(rs, last, Count(rs))| > 0
    ensures |Above(rs, Smallest(rs, last), Count(rs))| < |Above(rs, last, Count(rs))|
  {
    SmallestIs(rs, last);
    AboveIs(rs, last, Count(rs));
    AboveShrinks(rs, last, Smallest(rs, last), Count(rs));
  }

  ghost function StripeTable(rs: RaidSet, last: nat): seq<Record>
    requires Bounded(rs)
    decreases |Above(rs, last, Count(rs))|
  {
    var min := Smallest(rs, last);
    if min == 0 then []
    else
      SmallestHasComponents(rs, last);
      [Layer(rs, last, min)] + if rs.maximize then StripeTable(rs, min) else []
  }

  // The targets of one line.
  method Raid0Targets(rs: RaidSet, last: nat) returns (to: seq<Target>)
    ensures to == TargetsAt(Above(rs, last, Count(rs)), last)
  {
    to := [];
    for k := 0 to |rs.sets|
      invariant to == TargetsAt(Above(rs, last, k), last)
    {
      var t := TotalSectors(rs.sets[k]);
      if t > last {
        to := to + [Target(k, last)];
      }
    }
    for k := 0 to |rs.devs|
      invariant to == TargetsAt(Above(rs, last, |rs.sets| + k), last)
    {
      if rs.devs[k].sectors > last {
        to := to + [Target(|rs.sets| + k, last)];
      }
    }
  }

  // One line of the table.
  method Raid0Line(rs: RaidSet, last: nat, min: nat) returns (line: Record)
    requires |Above(rs, last, Count(rs))| > 0
    ensures line == Layer(rs, last, min)
  {
    hide Above, RoundDown, Wrap64;
    var n := CountAbove(rs, last);
    var targets := Raid0Targets(rs, last);
    var start, length := Wrap64(last * n), Wrap64((RoundDown(min, rs.stride) - last) * n);
    line := if n > 1 then StripedRec(start, length, rs.stride, targets) else LinearRec(start, length, targets[0]);
  }

  lemma StripeStep(rs: RaidSet, last: nat)
    requires Bounded(rs) && Smallest(rs, last) != 0
    ensures |Above(rs, last, Count(rs))| > 0
    ensures |Above(rs, Smallest(rs, last), Count(rs))| < |Above(rs, last, Count(rs))|
    ensures StripeTable(rs, last)
         == [Layer(rs, last, Smallest(rs, last))] + if rs.maximize then StripeTable(rs, Smallest(rs, last)) else []
  {
    hide Above, Smallest, Layer, SizeOf;
    SmallestHasComponents(rs, last);
  }

  lemma StripeEnd(rs: RaidSet, last: nat)
    requires Bounded(rs) && Smallest(rs, last) == 0
    ensures StripeTable(rs, last) == []
  {
    hide Above, Smallest, Layer, SizeOf;
  }

  method DmRaid0(rs: RaidSet) returns (table: seq<Record>)
    requires Bounded(rs)
    ensures table == StripeTable(rs, 0)
  {
    hide *;
    table := [];
    var last := 0;
    var min := FindSmallest(rs, last);
    while min != 0
      invariant min == Smallest(rs, last)
      invariant table + StripeTable(rs, last) == StripeTable(rs, 0)
      decreases |Above(rs, last, Count(rs))|
    {
      StripeStep(rs, last);
      var line := Raid0Line(rs, last, min);
      table := table + [line];
      if !rs.maximize {
        return;
      }
      last := min;
      min := FindSmallest(rs, last);
    }
    StripeEnd(rs, last);
  }

  // ----------------------------------------------------------------- dm_raid1

  // The legs of a mirror; a rebuild of the first drive moves it to the end of its list.
  function Legs(n: nat, first: nat, rebuild: bool): (r: seq<Target>)
    ensures |r| == n
  {
    var legs := seq(n, j requires 0 <= j => Target(first + j, 0));
    if rebuild && n > 0 then legs[1..] + [legs[0]] else legs
  }

  const MB_128 := 0x4_0000

  // The number of sectors over 1024, as an unsigned int and at most 128 MB.
  function RegionLimit(sectors: nat): (max: nat)
    ensures max <= MB_128
  {
    var max := sectors / 1024 % 0x1_0000_0000;
    if max > MB_128 then MB_128 else max
  }

  // calc_region_size, for the dirty log.
  function RegionSize(sectors: nat): nat {
    GrowRegion(128, RegionLimit(sectors)) / 2
  }

  function GrowRegion(size: nat, max: nat): (r: nat)
    requires size > 0
    ensures size <= r && max <= r && (r == size || r < 2 * max)
    decreases max - size
  {
    if size < max then GrowRegion(2 * size, max) else size
  }

  lemma {:induction false} GrownIsPower(size: nat, max: nat)
    requires PowerOfTwo(size)
    ensures PowerOfTwo(GrowRegion(size, max))
    decreases max - size
  {
    if size < max {
      GrownIsPower(2 * size, max);
    }
  }

  lemma ThousandthIs(sectors: nat)
    ensures var max := sectors / 1024 % 0x1_0000_0000; 1024 * max <= sectors % 0x400_0000_0000 < 1024 * (max + 1)
  {
  }

  // A power of two from 64 to 131072: the smallest one whose double reaches a 1024th of the
  // sectors, without the fraction. The 1024th is an unsigned int, so sectors count modulo 2^42.
  predicate IsRegion(sectors: nat, r: nat) {
    var s := sectors % 0x400_0000_0000;
    && PowerOfTwo(r) && 64 <= r < 0x4_0000
    && (r < 0x2_0000 ==> s < 1024 * (2 * r + 1)) && (r > 64 ==> s >= 1024 * (r + 1))
  }

  /** The loop finds that power of two, in plain numbers. */
  lemma {:induction false} RegionSizeIs(sectors: nat)
    ensures IsRegion(sectors, RegionSize(sectors))
  {
    assert PowerOfTwo(2) && PowerOfTwo(8) && PowerOfTwo(32) && PowerOfTwo(128);
    GrownIsPower(128, RegionLimit(sectors));
    ThousandthIs(sectors);
  }

  method CalcRegionSize(sectors: nat) returns (size: nat)
    ensures size == RegionSize(sectors)
  {
    var max := sectors / 1024 % 0x1_0000_0000;
    if max > MB_128 {
      max := MB_128;
    }
    size := 128;
    while size < max
      invariant size > 0 && GrowRegion(size, max) == GrowRegion(128, RegionLimit(sectors))
    {
      size := 2 * size;
    }
    size := size / 2;
  }

  // The drive to rebuild counts when the set is not in sync, and only the first one is moved.
  function MirrorTable(rs: RaidSet): seq<Record> {
    var first := rs.sync && rs.drive == 0;
    if Count(rs) == 0 then []
    else if Count(rs) == 1 then LinearTable(rs, 1)
    else if Smallest(rs, 0) == 0 then []
    else
      var sectors := Smallest(rs, 0);
      [MirrorRec(0, sectors, RegionSize(sectors), rs.sync,
                 Legs(|rs.sets|, 0, first) + Legs(|rs.devs|, |rs.sets|, first))]
  }

  // The legs of one list.
  method PushLegs(n: nat, first: nat, rebuild: bool) returns (legs: seq<Target>)
    ensures legs == Legs(n, first, rebuild)
  {
    legs := [];
    var swap := false;
    for k := 0 to n
      invariant swap == (rebuild && k > 0)
      invariant legs == if swap then seq(k - 1, j requires 0 <= j => Target(first + j + 1, 0))
                        else seq(k, j requires 0 <= j => Target(first + j, 0))
    {
      if rebuild && !swap {
        swap := true;
      } else {
        legs := legs + [Target(first + k, 0)];
      }
    }
    if swap {
      legs := legs + [Target(first, 0)];
    }
  }

  method DmRaid1(rs: RaidSet) returns (table: seq<Record>)
    ensures table == MirrorTable(rs)
  {
    var mirrors := Count(rs);
    if mirrors == 0 {
      return [];
    }
    if mirrors == 1 {
      table := DmLinear(rs);
      return;
    }
    var sectors := FindSmallest(rs, 0);
    if sectors == 0 {
      return [];
    }
    var region := CalcRegionSize(sectors);
    var first := rs.sync && rs.drive == 0;
    var a := PushLegs(|rs.sets|, 0, first);
    var b := PushLegs(|rs.devs|, |rs.sets|, first);
    table := [MirrorRec(0, sectors, region, rs.sync, a + b)];
  }

  // --------------------------------------------------------------- dm_raid45

  // The size of the mapping: whole chunks of the smallest member, times the data members.
  function ParityLength(rs: RaidSet, members: nat): nat
    requires rs.stride > 0 && members > 0
  {
    Times(Times(Quotient(Smallest(rs, 0), rs.stride), rs.stride), members - 1)
  }
}
