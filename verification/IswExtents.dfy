/** Where Intel Software RAID puts a volume on its member disks: _get_stride_size,
    _find_factors, isw_config_map, _cal_array_size and isw_config_dev of
    lib/format/ataraid/isw.c, in their 32-bit arithmetic.
 */
module IswExtents {
  import ByteOrder
  import opened Optional

  const RAID_DS_JOURNAL := 264
  const MIGR_OPT_SPACE := 4096
  const RAID_VOLUME_RESERVED_BLOCKS := RAID_DS_JOURNAL + MIGR_OPT_SPACE
  const RAID_DISK_RESERVED_BLOCKS := 417
  const DISK_RESERVED_BLOCKS := RAID_DISK_RESERVED_BLOCKS + RAID_VOLUME_RESERVED_BLOCKS
  const MIN_VOLUME_SIZE := 204800

  datatype Level = Raid0 | Raid1 | Raid10 | Raid5

  // _find_factors
  function Div(l: Level): nat {
    if l.Raid1? || l.Raid10? then 2 else 1
  }

  function Sub(l: Level): nat {
    if l.Raid5? then 1 else 0
  }

  // min_num_disks and max_num_disks
  predicate DisksAllowed(l: Level, n: nat) {
    match l
    case Raid0 => 2 <= n <= 6
    case Raid1 => n == 2
    case Raid10 => n == 4
    case Raid5 => 3 <= n <= 6
  }

  // -------------------------------------------------------------- strips

  // The default, then the choices in ascending order.
  function Options(l: Level): (r: seq<nat>)
    ensures |r| >= 2 && forall k :: 0 <= k < |r| ==> 8 <= r[k] <= 256
  {
    match l
    case Raid0 => [256, 8, 16, 32, 64, 128, 256]
    case Raid1 => [128, 128]
    case Raid10 => [128, 8, 16, 32, 64, 128, 256]
    case Raid5 => [128, 32, 64, 128, 256]
  }

  /** Each choice is twice the one before it, up to the largest; the default is one of them. */
  lemma OptionsAre(l: Level)
    ensures var o := Options(l);
      && o[1] == (match l case Raid0 => 8 case Raid1 => 128 case Raid10 => 8 case Raid5 => 32)
      && o[|o| - 1] == (if l.Raid1? then 128 else 256) && o[0] == (if l.Raid0? then 256 else 128)
      && forall k :: 1 <= k < |o| - 1 ==> o[k + 1] == 2 * o[k]
  {
  }

  // The choice made for a requested stride: the first that is large enough, or the last.
  ghost predicate Chosen(l: Level, stride: nat, r: nat) {
    var o := Options(l);
    if stride == 0 then r == o[0]
    else exists i ::
      && 1 <= i < |o| && r == o[i] && (stride <= r || i == |o| - 1)
      && forall j :: 1 <= j < i ==> o[j] < stride
  }

  function StrideFrom(o: seq<nat>, stride: nat, i: nat): (r: nat)
    requires 1 <= i < |o|
    decreases |o| - i
  {
    if i + 1 < |o| && stride > o[i] then StrideFrom(o, stride, i + 1) else o[i]
  }

  function Stride(l: Level, stride: nat): nat {
    if stride == 0 then Options(l)[0] else StrideFrom(Options(l), stride, 1)
  }

  // _get_stride_size
  method GetStrideSize(l: Level, stride: nat) returns (r: nat)
    ensures r == Stride(l, stride) && Chosen(l, stride, r)
  {
    var o := Options(l);
    var i := 0;
    if stride != 0 {
      i := 1;
      while i + 1 < |o| && stride > o[i]
        invariant 1 <= i < |o|
        invariant forall j :: 1 <= j < i ==> o[j] < stride
        invariant StrideFrom(o, stride, i) == StrideFrom(o, stride, 1)
      {
        i := i + 1;
      }
    }
    r := o[i];
  }

  lemma {:induction false} StrideFromBounds(o: seq<nat>, stride: nat, i: nat)
    requires 1 <= i < |o| && forall k :: 0 <= k < |o| ==> 8 <= o[k] <= 256
    ensures 8 <= StrideFrom(o, stride, i) <= 256
    decreases |o| - i
  {
    if i + 1 < |o| && stride > o[i] {
      StrideFromBounds(o, stride, i + 1);
    }
  }

  lemma StrideBounds(l: Level, stride: nat)
    ensures 8 <= Stride(l, stride) <= 256
  {
    StrideFromBounds(Options(l), stride, 1);
  }

  // ----------------------------------------------------------------- maps

  // pba_of_lba0 and blocks_per_member, with the number of stripes and their strips
  datatype Extent = Extent(pba: nat, blocks: nat, stripes: nat, strip: nat)

  // The stripes of d data strips that hold a size.
  function StripeCount(size: nat, strip: nat, d: nat): nat
    requires strip > 0 && d > 0
  {
    (size / strip + d - 1) / d
  }

  // The blocks of a member for a number of stripes.
  function Data(strip: nat, stripes: nat, div: nat): nat {
    strip * stripes * div
  }

  // What d data disks hold, when each has that much room.
  function Total(room: nat, d: nat, div: nat): nat
    requires div > 0
  {
    room * d / div
  }

  // isw_config_map; the fields of the map have 32 bits.
  function ConfigMap(l: Level, n: nat, stride: nat, size: nat, first: nat): Extent
    requires DisksAllowed(l, n)
  {
    StrideBounds(l, stride);
    var strip := Stride(l, stride);
    var stripes := StripeCount(size, strip, n - Sub(l)) % ByteOrder.B4;
    Extent(first % ByteOrder.B4, (Data(strip, stripes, Div(l)) + RAID_DS_JOURNAL) % ByteOrder.B4, stripes, strip)
  }

  function Smallest(sectors: seq<nat>): (r: nat)
    requires sectors != []
    ensures r in sectors && forall k :: 0 <= k < |sectors| ==> r <= sectors[k]
  {
    var last := sectors[|sectors| - 1];
    if |sectors| == 1 then last
    else var r := Smallest(sectors[..|sectors| - 1]); if last < r then last else r
  }

  // What the existing volume leaves of the smallest member; nothing when it cannot be used.
  function Room(least: nat, existing: Option<Extent>): (r: Option<nat>) {
    var left := least - DISK_RESERVED_BLOCKS;
    match existing
    case None => if left > DISK_RESERVED_BLOCKS then Some(left - DISK_RESERVED_BLOCKS) else None
    case Some(e) =>
      if e.pba == 0 then
        var used := (e.blocks + DISK_RESERVED_BLOCKS) % ByteOrder.B4;
        if left > used then Some(left - used) else None
      else if e.pba >= RAID_VOLUME_RESERVED_BLOCKS then Some(e.pba - RAID_VOLUME_RESERVED_BLOCKS)
      else None
  }

  function ArraySize(sectors: seq<nat>, l: Level, existing: Option<Extent>): nat
    requires DisksAllowed(l, |sectors|)
  {
    var least := Smallest(sectors);
    if least < DISK_RESERVED_BLOCKS then 0
    else match Room(least, existing)
      case None => 1
      case Some(room) => Total(room, |sectors| - Sub(l), Div(l))
  }

  // The loop over the members.
  method SmallestDisk(sectors: seq<nat>) returns (min: nat, n: nat)
    requires sectors != []
    ensures min == Smallest(sectors) && n == |sectors|
  {
    min, n := sectors[0], 1;
    while n < |sectors|
      invariant 1 <= n <= |sectors|
      invariant min == Smallest(sectors[..n])
    {
      assert sectors[..n + 1][..n] == sectors[..n];
      if min > sectors[n] {
        min := sectors[n];
      }
      n := n + 1;
    }
    assert sectors[..n] == sectors;
  }

  // _cal_array_size
  method CalArraySize(sectors: seq<nat>, l: Level, existing: Option<Extent>) returns (total: nat)
    requires DisksAllowed(l, |sectors|)
    ensures total == ArraySize(sectors, l, existing)
  {
    hide Smallest;
    var min, n := SmallestDisk(sectors);
    if min < DISK_RESERVED_BLOCKS {
      return 0;
    }
    min := min - DISK_RESERVED_BLOCKS;
    if existing.Some? {
      if existing.value.pba == 0 {
        var max := (existing.value.blocks + DISK_RESERVED_BLOCKS) % ByteOrder.B4;
        if min > max {
          min := min - max;
        } else {
          return 1;
        }
      } else if existing.value.pba >= RAID_VOLUME_RESERVED_BLOCKS {
        min := existing.value.pba - RAID_VOLUME_RESERVED_BLOCKS;
      } else {
        return 1;
      }
    } else {
      if min > DISK_RESERVED_BLOCKS {
        min := min - DISK_RESERVED_BLOCKS;
      } else {
        return 1;
      }
    }
    total := min * (n - Sub(l)) / Div(l);
  }

  // ------------------------------------------------------------- creation

  // enforce_size_limit
  function Limited(size: nat): nat {
    if size != 0 && size < MIN_VOLUME_SIZE then MIN_VOLUME_SIZE else size
  }

  // The sizes of _isw_create_first_volume; the size is that of the request.
  function CreateFirst(sectors: seq<nat>, l: Level, stride: nat, size: nat): Option<Extent>
    requires DisksAllowed(l, |sectors|)
  {
    var total := ArraySize(sectors, l, None);
    var asked := Limited(size);
    if asked > total then None
    else Some(ConfigMap(l, |sectors|, stride, if asked != 0 then asked else total, 0))
  }

  // The sizes of _isw_create_second_volume; it takes all that is left.
  function CreateSecond(sectors: seq<nat>, l: Level, stride: nat, existing: Extent): Option<Extent>
    requires DisksAllowed(l, |sectors|)
  {
    var total := ArraySize(sectors, l, Some(existing));
    if total < MIN_VOLUME_SIZE then None
    else if existing.pba == 0 then
      Some(ConfigMap(l, |sectors|, stride, total, (existing.blocks + MIGR_OPT_SPACE) % ByteOrder.B4))
    else
      var e := ConfigMap(l, |sectors|, stride, total, 0);
      if (e.blocks + MIGR_OPT_SPACE) % ByteOrder.B4 > existing.pba then None else Some(e)
  }

  // ------------------------------------------------------------ arithmetic

  lemma MulLe(a: nat, b: nat, c: nat)
    requires a <= b
    ensures a * c <= b * c
  {
  }

  lemma CancelLt(a: nat, b: nat, c: nat)
    requires a * c < b * c
    ensures a < b
  {
    if b <= a {
      MulLe(b, a, c);
    }
  }

  lemma DivBounds(a: nat, b: nat)
    requires b > 0
    ensures a / b * b <= a < a / b * b + b
  {
  }

  // Rounding up a number of strips to whole stripes of d.
  lemma StripeBounds(t: nat, d: nat)
    requires d > 0
    ensures t <= (t + d - 1) / d * d < t + d
  {
    DivBounds(t + d - 1, d);
  }

  // The blocks a member gives to a volume, without the journal.
  lemma DataBounds(size: nat, room: nat, strip: nat, d: nat, div: nat)
    requires strip > 0 && d > 0 && 1 <= div <= 2 && div * size <= room * d
    ensures var stripes := StripeCount(size, strip, d);
      && Data(strip, stripes, div) < room + strip * div
      && size - size % strip <= strip * stripes * d
  {
    var t, stripes := size / strip, StripeCount(size, strip, d);
    DivBounds(size, strip);
    StripeBounds(t, d);
    DataBelow(size, room, strip, d, div, t, stripes);
    MulLe(t, stripes * d, strip);
    Associate(strip, stripes, d);
  }

  lemma DataBelow(size: nat, room: nat, strip: nat, d: nat, div: nat, t: nat, stripes: nat)
    requires strip > 0 && d > 0 && 1 <= div <= 2 && div * size <= room * d
    requires t * strip <= size && stripes * d < t + d
    ensures Data(strip, stripes, div) < room + strip * div
  {
    var u := strip * div;
    ScaledStripes(strip, stripes, div, d);
    MulLe(stripes * d, t + d - 1, u);
    assert (t + d - 1) * u == t * u + d * u - u by { Distribute(t, d, u); }
    assert t * u == (t * strip) * div by { Associate(t, strip, div); }
    MulLe(t * strip, size, div);
    assert (room + u) * d == room * d + u * d;
    assert d * u == u * d;
    CancelLt(strip * stripes * div, room + u, d);
  }

  lemma ScaledStripes(strip: nat, stripes: nat, div: nat, d: nat)
    ensures strip * stripes * div * d == (stripes * d) * (strip * div)
  {
    Associate(strip, stripes, div);
    Associate(stripes, d, strip * div);
    var x := strip * div;
    assert strip * stripes * div == stripes * x;
    assert stripes * x * d == stripes * d * x;
  }

  lemma Associate(a: nat, b: nat, c: nat)
    ensures a * b * c == a * (b * c)
  {
  }

  lemma Distribute(t: nat, d: nat, u: nat)
    requires d > 0
    ensures (t + d - 1) * u == t * u + d * u - u
  {
  }

  // ------------------------------------------------------------ the volumes

  // What the members of a volume hold, when each gives d blocks to it: RAID 0 spreads the
  // strips over all members, RAID 1 has all of them on each, RAID 10 has them twice, and
  // RAID 5 leaves the blocks of one member to parity. It is the size in whole strips, and less
  // than a stripe more; nothing wraps around.
  predicate Holds(e: Extent, l: Level, n: nat, size: nat)
    requires DisksAllowed(l, n)
  {
    && 8 <= e.strip <= 256 && e.blocks >= RAID_DS_JOURNAL
    && var d, whole := e.blocks - RAID_DS_JOURNAL, size - size % e.strip;
       match l
       case Raid0 => d == e.strip * e.stripes && whole <= n * d < whole + n * e.strip
       case Raid1 => d == 2 * e.strip * e.stripes && whole <= d < whole + 2 * e.strip
       case Raid10 => d == 2 * e.strip * e.stripes && 2 * whole <= n * d < 2 * whole + 2 * n * e.strip
       case Raid5 => d == e.strip * e.stripes && whole <= (n - 1) * d < whole + (n - 1) * e.strip
  }

  // The stripes of d strips are just enough.
  lemma StripesHold(size: nat, strip: nat, d: nat)
    requires strip > 0 && d > 0
    ensures var x := strip * StripeCount(size, strip, d);
      size - size % strip <= x * d < size - size % strip + strip * d
  {
    var t, stripes := size / strip, StripeCount(size, strip, d);
    StripeBounds(t, d);
    var y := stripes * d;
    MulLe(t, y, strip);
    MulLe(y + 1, t + d, strip);
    Associate(strip, stripes, d);
    assert y * strip == strip * y && t * strip == size - size % strip;
    assert (y + 1) * strip == y * strip + strip;
    assert (t + d) * strip == t * strip + strip * d;
  }

  lemma LevelHolds(e: Extent, l: Level, n: nat, size: nat, x: nat)
    requires DisksAllowed(l, n) && 8 <= e.strip <= 256 && x == e.strip * e.stripes
    requires e.blocks == (if l.Raid1? || l.Raid10? then 2 * x else x) + RAID_DS_JOURNAL
    requires var d, whole := if l.Raid5? then n - 1 else n, size - size % e.strip;
      whole <= x * d < whole + e.strip * d
    ensures Holds(e, l, n, size)
  {
    var whole := size - size % e.strip;
    assert 2 * e.strip * e.stripes == 2 * x by { Associate(2, e.strip, e.stripes); }
    match l
    case Raid0 =>
      Commute(x, n);
      Commute(e.strip, n);
    case Raid1 =>
    case Raid10 =>
    case Raid5 =>
      Commute(x, n - 1);
      Commute(e.strip, n - 1);
  }

  lemma Commute(a: nat, b: nat)
    ensures a * b == b * a
  {
  }

  const SLACK := 776   // the journal and two strips of 256 blocks

  lemma MapIsExact(l: Level, n: nat, stride: nat, size: nat, first: nat, room: nat)
    requires DisksAllowed(l, n) && Div(l) * size <= room * (n - Sub(l))
    requires first < ByteOrder.B4 && room + SLACK < ByteOrder.B4
    ensures var e := ConfigMap(l, n, stride, size, first);
      Holds(e, l, n, size) && e.pba == first && RAID_DS_JOURNAL <= e.blocks < room + SLACK
  {
    hide StripeCount, Stride, DisksAllowed, Data, Holds;
    DataDisks(l, n);
    StrideBounds(l, stride);
    var strip, d, div := Stride(l, stride), n - Sub(l), Div(l);
    DataBounds(size, room, strip, d, div);
    var stripes := StripeCount(size, strip, d);
    StripesBelow(strip, stripes, div);
    var data := Data(strip, stripes, div);
    assert stripes % ByteOrder.B4 == stripes;
    assert (data + RAID_DS_JOURNAL) % ByteOrder.B4 == data + RAID_DS_JOURNAL;
    StripesHold(size, strip, d);
    DataOf(l, strip, stripes);
    LevelHolds(ConfigMap(l, n, stride, size, first), l, n, size, strip * stripes);
  }

  lemma DataOf(l: Level, strip: nat, stripes: nat)
    ensures Data(strip, stripes, Div(l)) == if l.Raid1? || l.Raid10? then 2 * (strip * stripes) else strip * stripes
  {
  }

  lemma DataDisks(l: Level, n: nat)
    requires DisksAllowed(l, n)
    ensures n - Sub(l) >= 1 && 1 <= Div(l) <= 2
  {
  }

  lemma StripesBelow(strip: nat, stripes: nat, div: nat)
    requires strip >= 1 && div >= 1
    ensures stripes <= Data(strip, stripes, div)
  {
    MulLe(1, strip, stripes);
    MulLe(1, div, strip * stripes);
  }

  // Member disks large enough for the reserved blocks, with 32-bit sizes.
  predicate Usable(sectors: seq<nat>) {
    sectors != [] && forall k :: 0 <= k < |sectors| ==> DISK_RESERVED_BLOCKS <= sectors[k] < ByteOrder.B4
  }

  // A volume lies inside the smallest member, and leaves the end of it free.
  predicate Placed(e: Extent, least: nat) {
    && e.pba + e.blocks <= least && e.blocks >= RAID_DS_JOURNAL
    && (e.pba == 0 ==> e.blocks == RAID_DS_JOURNAL || e.blocks + 8778 <= least)
    && (e.pba != 0 ==> e.pba >= RAID_VOLUME_RESERVED_BLOCKS && e.pba + e.blocks + 4682 <= least)
  }

  predicate Apart(a: Extent, b: Extent) {
    a.pba + a.blocks + MIGR_OPT_SPACE <= b.pba || b.pba + b.blocks + MIGR_OPT_SPACE <= a.pba
  }

  lemma TotalBounds(room: nat, d: nat, div: nat)
    requires 1 <= div <= 2
    ensures div * Total(room, d, div) <= room * d
  {
  }

  // What a volume may take of the smallest member: all but two reserved areas and what is
  // there already, or what lies below the existing volume.
  function Left(least: nat, existing: Option<Extent>): int {
    match existing
    case None => least - 2 * DISK_RESERVED_BLOCKS
    case Some(e) =>
      if e.pba == 0 then least - e.blocks - 2 * DISK_RESERVED_BLOCKS else e.pba - RAID_VOLUME_RESERVED_BLOCKS
  }

  /** The size that is offered, level by level: RAID 0 adds up what the members have left,
      RAID 1 has it once and RAID 10 twice, and RAID 5 goes without one member. With no room
      it is one block.
   */
  lemma OfferedSize(sectors: seq<nat>, l: Level, existing: Option<Extent>)
    requires DisksAllowed(l, |sectors|) && Usable(sectors)
    requires existing.Some? ==> Placed(existing.value, Smallest(sectors))
    ensures var n, left := |sectors|, Left(Smallest(sectors), existing);
      ArraySize(sectors, l, existing)
      == if left < 0 || (left == 0 && (existing.None? || existing.value.pba == 0)) then 1
         else match l
              case Raid0 => n * left
              case Raid1 => left
              case Raid10 => 2 * left
              case Raid5 => (n - 1) * left
  {
    hide Smallest, Total;
    var n, least := |sectors|, Smallest(sectors);
    match Room(least, existing)
    case None =>
    case Some(room) => TotalOf(l, n, room);
  }

  /** Nothing is offered on members that do not hold the reserved blocks. */
  lemma TooSmall(sectors: seq<nat>, l: Level, existing: Option<Extent>, k: nat)
    requires DisksAllowed(l, |sectors|) && k < |sectors| && sectors[k] < DISK_RESERVED_BLOCKS
    ensures ArraySize(sectors, l, existing) == 0
  {
  }

  lemma TotalOf(l: Level, n: nat, room: nat)
    requires DisksAllowed(l, n)
    ensures Total(room, n - Sub(l), Div(l))
         == match l case Raid0 => n * room case Raid1 => room case Raid10 => 2 * room case Raid5 => (n - 1) * room
  {
    Commute(room, n - Sub(l));
  }

  // The size a first volume is given.
  function FirstSize(sectors: seq<nat>, l: Level, size: nat): nat
    requires DisksAllowed(l, |sectors|)
  {
    if Limited(size) != 0 then Limited(size) else ArraySize(sectors, l, None)
  }

  /** An accepted first volume starts at the beginning, fits on every member, and
      holds its size, rounded down to a strip; nothing wraps around.
   */
  lemma FirstVolume(sectors: seq<nat>, l: Level, stride: nat, size: nat)
    requires DisksAllowed(l, |sectors|) && Usable(sectors) && CreateFirst(sectors, l, stride, size).Some?
    ensures var e := CreateFirst(sectors, l, stride, size).value;
      && e.pba == 0 && Placed(e, Smallest(sectors)) && Holds(e, l, |sectors|, FirstSize(sectors, l, size))
      && forall k :: 0 <= k < |sectors| ==> e.pba + e.blocks <= sectors[k]
  {
    hide ConfigMap, Holds, DisksAllowed, Smallest;
    DataDisks(l, |sectors|);
    var least, n := Smallest(sectors), |sectors|;
    var tmp := FirstSize(sectors, l, size);
    var e := CreateFirst(sectors, l, stride, size).value;
    assert e == ConfigMap(l, n, stride, tmp, 0);
    match Room(least, None)
    case Some(room) =>
      TotalBounds(room, n - Sub(l), Div(l));
      MulLe(tmp, ArraySize(sectors, l, None), Div(l));
      MapIsExact(l, n, stride, tmp, 0, room);
    case None =>
      MapIsExact(l, n, stride, 1, 0, 2);
      StrideBounds(l, stride);
      OneBlock(l, n, stride);
  }

  // A volume of one block has no stripes.
  lemma OneBlock(l: Level, n: nat, stride: nat)
    requires DisksAllowed(l, n)
    ensures ConfigMap(l, n, stride, 1, 0).blocks == RAID_DS_JOURNAL
  {
    hide Stride, StripeCount, Data, DisksAllowed;
    DataDisks(l, n);
    StrideBounds(l, stride);
    NoStripes(Stride(l, stride), n - Sub(l), Div(l));
  }

  lemma NoStripes(strip: nat, d: nat, div: nat)
    requires strip >= 8 && d >= 1
    ensures StripeCount(1, strip, d) == 0 && Data(strip, 0, div) == 0
  {
    QuotientIs(1, strip, 0);
    QuotientIs(d - 1, d, 0);
  }

  /** An accepted second volume fits on every member beside the volume that is there
      already, at least MIGR_OPT_SPACE away from it.
   */
  lemma SecondVolume(sectors: seq<nat>, l: Level, stride: nat, existing: Extent)
    requires DisksAllowed(l, |sectors|) && Usable(sectors) && Placed(existing, Smallest(sectors))
    requires CreateSecond(sectors, l, stride, existing).Some?
    ensures var e := CreateSecond(sectors, l, stride, existing).value;
      && Placed(e, Smallest(sectors)) && Apart(e, existing)
      && e.pba == (if existing.pba == 0 then existing.blocks + MIGR_OPT_SPACE else 0)
      && Holds(e, l, |sectors|, ArraySize(sectors, l, Some(existing)))
      && forall k :: 0 <= k < |sectors| ==> e.pba + e.blocks <= sectors[k]
  {
    hide ConfigMap, Holds, DisksAllowed, Smallest;
    DataDisks(l, |sectors|);
    var least, n := Smallest(sectors), |sectors|;
    var total := ArraySize(sectors, l, Some(existing));
    var room := Room(least, Some(existing)).value;
    TotalBounds(room, n - Sub(l), Div(l));
    if existing.pba == 0 {
      assert room == least - DISK_RESERVED_BLOCKS - (existing.blocks + DISK_RESERVED_BLOCKS);
      MapIsExact(l, n, stride, total, existing.blocks + MIGR_OPT_SPACE, room);
    } else {
      MapIsExact(l, n, stride, total, 0, room);
    }
  }

  /** A first volume is refused exactly when more is asked for than is offered; a size below
      0.1 GB is raised to that, and no size means all that is offered.
   */
  lemma FirstAcceptedIff(sectors: seq<nat>, l: Level, stride: nat, size: nat)
    requires DisksAllowed(l, |sectors|)
    ensures var offered, asked := ArraySize(sectors, l, None), if size < 204800 then 204800 else size;
      && (CreateFirst(sectors, l, stride, size).Some? <==> size == 0 || asked <= offered)
      && FirstSize(sectors, l, size) == if size == 0 then offered else asked
  {
    hide ConfigMap, ArraySize, DisksAllowed;
  }

  /** A second volume behind one at the beginning is refused exactly when less than 0.1 GB is
      offered; BelowExisting has the other case.
   */
  lemma BehindExisting(sectors: seq<nat>, l: Level, stride: nat, existing: Extent)
    requires DisksAllowed(l, |sectors|) && existing.pba == 0
    ensures CreateSecond(sectors, l, stride, existing).Some? <==> ArraySize(sectors, l, Some(existing)) >= 204800
  {
    hide ConfigMap, ArraySize, DisksAllowed;
  }

  // --------------------------------------------------------------- any run

  datatype Step =
    | First(level: Level, stride: nat, size: nat)
    | Second(level: Level, stride: nat)
    | Delete(volume: nat)

  // One command; nothing when it is refused.
  function Next(sectors: seq<nat>, vols: seq<Extent>, s: Step): Option<seq<Extent>> {
    match s
    case First(l, stride, size) =>
      if vols != [] || !DisksAllowed(l, |sectors|) then None
      else (match CreateFirst(sectors, l, stride, size) case None => None case Some(e) => Some([e]))
    case Second(l, stride) =>
      if |vols| != 1 || !DisksAllowed(l, |sectors|) then None
      else (match CreateSecond(sectors, l, stride, vols[0]) case None => None case Some(e) => Some(vols + [e]))
    case Delete(k) => if k < |vols| then Some(vols[..k] + vols[k + 1..]) else None
  }

  predicate Sound(sectors: seq<nat>, vols: seq<Extent>)
    requires sectors != []
  {
    && |vols| <= 2
    && (forall i :: 0 <= i < |vols| ==> Placed(vols[i], Smallest(sectors)))
    && (|vols| == 2 ==> Apart(vols[0], vols[1]))
  }

  predicate Run(sectors: seq<nat>, states: seq<seq<Extent>>, steps: seq<Step>) {
    && |states| == |steps| + 1 && states[0] == []
    && forall i :: 0 <= i < |steps| ==> Next(sectors, states[i], steps[i]) == Some(states[i + 1])
  }

  lemma NextIsSound(sectors: seq<nat>, vols: seq<Extent>, s: Step)
    requires Usable(sectors) && Sound(sectors, vols) && Next(sectors, vols, s).Some?
    ensures Sound(sectors, Next(sectors, vols, s).value)
  {
    hide CreateFirst, CreateSecond, Placed, Apart, Smallest, Holds;
    match s
    case First(l, stride, size) =>
      FirstVolume(sectors, l, stride, size);
    case Second(l, stride) =>
      SecondVolume(sectors, l, stride, vols[0]);
      ApartSwaps(CreateSecond(sectors, l, stride, vols[0]).value, vols[0]);
    case Delete(k) =>
  }

  lemma ApartSwaps(a: Extent, b: Extent)
    requires Apart(a, b)
    ensures Apart(b, a)
  {
  }

  /** Over any run of creations and deletions, every volume fits on every member,
      and two volumes are disjoint with MIGR_OPT_SPACE blocks between them.
   */
  lemma {:induction false} EveryRunIsSound(sectors: seq<nat>, states: seq<seq<Extent>>, steps: seq<Step>, i: nat)
    requires Usable(sectors) && Run(sectors, states, steps) && i < |states|
    ensures Sound(sectors, states[i])
    ensures forall v, k :: 0 <= v < |states[i]| && 0 <= k < |sectors| ==>
      states[i][v].pba + states[i][v].blocks <= sectors[k]
    decreases i
  {
    hide Next, Smallest, Apart;
    if i > 0 {
      EveryRunIsSound(sectors, states, steps, i - 1);
      assert Next(sectors, states[i - 1], steps[i - 1]) == Some(states[i - 1 + 1]);
      NextIsSound(sectors, states[i - 1], steps[i - 1]);
    }
  }

  // ------------------------------------- a second volume below the first one

  lemma MultipleIff(t: nat, d: nat)
    requires d > 0
    ensures (t + d - 1) / d * d <= t <==> t % d == 0
  {
    StripeBounds(t, d);
    if t % d == 0 {
      assert t == t / d * d;
      assert (t + d - 1) / d == t / d by { QuotientIs(t + d - 1, d, t / d); }
    } else if (t + d - 1) / d * d <= t {
      assert t == (t + d - 1) / d * d;
      RemainderIs(t, d, (t + d - 1) / d, 0);
    }
  }

  lemma QuotientIs(a: nat, b: nat, q: nat)
    requires b > 0 && q * b <= a < q * b + b
    ensures a / b == q
  {
    DivBounds(a, b);
    if a / b < q {
      MulLe(a / b + 1, q, b);
    } else if a / b > q {
      MulLe(q + 1, a / b, b);
    }
  }

  lemma RemainderIs(a: nat, b: nat, q: nat, r: nat)
    requires b > 0 && a == q * b + r && r < b
    ensures a % b == r
  {
    QuotientIs(a, b, q);
  }

  lemma AtMostQuotient(a: nat, b: nat, x: nat)
    requires b > 0 && a * b <= x
    ensures a <= x / b
  {
    DivBounds(x, b);
    if a > x / b {
      MulLe(x / b + 1, a, b);
    }
  }

  // The blocks for what a room holds fit back into the room when they are whole stripes.
  lemma RefillsRoom(room: nat, strip: nat, d: nat, div: nat)
    requires strip > 0 && d > 0 && 1 <= div <= 2
    ensures var total := Total(room, d, div);
      Data(strip, StripeCount(total, strip, d), div) <= room <==> total / strip % d == 0
  {
    hide Data, Total, StripeCount;
    var total := Total(room, d, div);
    var stripes := StripeCount(total, strip, d);
    if total / strip % d == 0 {
      WholeStripesFit(room, strip, d, div);
    }
    if Data(strip, stripes, div) <= room {
      FittingStripesAreWhole(room, strip, d, div);
    }
  }

  lemma WholeStripesFit(room: nat, strip: nat, d: nat, div: nat)
    requires strip > 0 && d > 0 && 1 <= div <= 2
    requires Total(room, d, div) / strip % d == 0
    ensures Data(strip, StripeCount(Total(room, d, div), strip, d), div) <= room
  {
    hide Total;
    var total := Total(room, d, div);
    var t, stripes := total / strip, StripeCount(total, strip, d);
    StripeBounds(t, d);
    MultipleIff(t, d);
    DivBounds(total, strip);
    TotalBounds(room, d, div);
    WholeData(total, room, strip, d, div, t, stripes);
  }

  lemma WholeData(total: nat, room: nat, strip: nat, d: nat, div: nat, t: nat, stripes: nat)
    requires d > 0 && t * strip <= total && stripes * d == t && div * total <= room * d
    ensures Data(strip, stripes, div) <= room
  {
    ScaledStripes(strip, stripes, div, d);
    Associate(t, strip, div);
    MulLe(t * strip, total, div);
    assert total * div == div * total;
    assert (room + 1) * d == room * d + d;
    CancelLt(Data(strip, stripes, div), room + 1, d);
  }

  lemma FittingStripesAreWhole(room: nat, strip: nat, d: nat, div: nat)
    requires strip > 0 && d > 0 && 1 <= div <= 2
    requires Data(strip, StripeCount(Total(room, d, div), strip, d), div) <= room
    ensures Total(room, d, div) / strip % d == 0
  {
    var total := Total(room, d, div);
    var t, stripes := total / strip, StripeCount(total, strip, d);
    var whole := stripes * d;
    MultipleIff(t, d);
    ScaledStripes(strip, stripes, div, d);
    MulLe(Data(strip, stripes, div), room, d);
    Associate(whole, strip, div);
    AtMostQuotient(whole * strip, div, room * d);
    AtMostQuotient(whole, strip, total);
  }

  // Large enough for a volume, and a whole number of stripes.
  predicate FillsStripes(l: Level, n: nat, stride: nat, room: nat)
    requires DisksAllowed(l, n)
  {
    StrideBounds(l, stride);
    var total := Total(room, n - Sub(l), Div(l));
    total >= MIN_VOLUME_SIZE && total / Stride(l, stride) % (n - Sub(l)) == 0
  }

  /** A second volume below the existing one is accepted exactly when the room below
      it is large enough and its strips fill whole stripes.
   */
  lemma {:induction false} BelowExisting(sectors: seq<nat>, l: Level, stride: nat, existing: Extent)
    requires DisksAllowed(l, |sectors|) && Usable(sectors) && Placed(existing, Smallest(sectors)) && existing.pba != 0
    ensures CreateSecond(sectors, l, stride, existing).Some?
      <==> FillsStripes(l, |sectors|, stride, existing.pba - RAID_VOLUME_RESERVED_BLOCKS)
  {
    hide Holds, DisksAllowed, Smallest, Stride, StripeCount, Total, Data, ConfigMap;
    DataDisks(l, |sectors|);
    StrideBounds(l, stride);
    var room, d, div := existing.pba - RAID_VOLUME_RESERVED_BLOCKS, |sectors| - Sub(l), Div(l);
    var total := Total(room, d, div);
    assert ArraySize(sectors, l, Some(existing)) == total;
    BlocksOfMap(l, |sectors|, stride, room);
    RefillsRoom(room, Stride(l, stride), d, div);
  }

  lemma BlocksOfMap(l: Level, n: nat, stride: nat, room: nat)
    requires DisksAllowed(l, n) && room + SLACK < ByteOrder.B4
    ensures Stride(l, stride) > 0
    ensures var total := Total(room, n - Sub(l), Div(l));
      ConfigMap(l, n, stride, total, 0).blocks
      == Data(Stride(l, stride), StripeCount(total, Stride(l, stride), n - Sub(l)), Div(l)) + RAID_DS_JOURNAL
         < room + SLACK
  {
    hide Stride, StripeCount, Total, Data, DisksAllowed;
    DataDisks(l, n);
    StrideBounds(l, stride);
    var strip, d, div := Stride(l, stride), n - Sub(l), Div(l);
    var total := Total(room, d, div);
    TotalBounds(room, d, div);
    DataBounds(total, room, strip, d, div);
    StripesBelow(strip, StripeCount(total, strip, d), div);
  }
}
