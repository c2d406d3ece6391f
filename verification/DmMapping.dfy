/** What a table means, for the "linear", "striped" and "mirror" targets of the
    device mapper, and where the sectors of a stack of RAID sets end up: every one
    inside a disk's part, and no two in the same place.
 */
module DmMapping {
  import opened Rounding
  import opened RaidSets
  import opened DmTable

  // ------------------------------------------------------------------ records

  predicate Contains(r: Record, s: nat) {
    r.start <= s < r.start + r.length
  }

  // The component that holds a sector of n components striped in chunks, and the sector in it.
  function StripeComp(n: nat, stride: nat, s: nat): nat
    requires n > 0 && stride > 0
  {
    Remainder(Quotient(s, stride), n)
  }

  function StripeSector(n: nat, stride: nat, s: nat): nat
    requires n > 0 && stride > 0
  {
    Times(Quotient(Quotient(s, stride), n), stride) + Remainder(s, stride)
  }

  predicate Mappable(r: Record) {
    r.StripedRec? ==> r.stride > 0 && r.targets != []
  }

  // Where a record sends a sector: the component and the sector in it, for every copy.
  function MapSector(r: Record, s: nat): seq<Target>
    requires Mappable(r) && Contains(r, s)
  {
    var x := s - r.start;
    match r
    case LinearRec(_, _, to) => [Target(to.comp, to.offset + x)]
    case StripedRec(_, _, stride, targets) =>
      var t := targets[StripeComp(|targets|, stride, x)];
      [Target(t.comp, t.offset + StripeSector(|targets|, stride, x))]
    case MirrorRec(_, _, _, _, legs) =>
      seq(|legs|, j requires 0 <= j < |legs| => Target(legs[j].comp, legs[j].offset + x))
  }

  predicate AllMappable(table: seq<Record>) {
    forall k :: 0 <= k < |table| ==> Mappable(table[k])
  }

  function Lookup(table: seq<Record>, s: nat): seq<Target>
    requires AllMappable(table)
  {
    if table == [] then []
    else
      var last := table[|table| - 1];
      if Contains(last, s) then MapSector(last, s) else Lookup(table[..|table| - 1], s)
  }

  function TableLength(table: seq<Record>): nat {
    if table == [] then 0 else TableLength(table[..|table| - 1]) + table[|table| - 1].length
  }

  // ------------------------------------------------------------------ striping

  /** The sector that a stripe sends to a sector of a component. */
  function StripeInverse(n: nat, stride: nat, comp: nat, sector: nat): nat
    requires stride > 0
  {
    Times(Times(Quotient(sector, stride), n) + comp, stride) + Remainder(sector, stride)
  }

  lemma Split(a: nat, b: nat, q: nat, r: nat)
    requires b > 0 && a == Times(q, b) + r && r < b
    ensures Quotient(a, b) == q && Remainder(a, b) == r
  {
    UniqueRemainder(a, b, q, r);
  }

  lemma Parts(a: nat, b: nat)
    requires b > 0
    ensures a == Times(Quotient(a, b), b) + Remainder(a, b) && Remainder(a, b) < b
  {
    QuotientBounds(a, b);
  }

  lemma TimesBelow(q: nat, r: nat, b: nat, m: nat)
    requires r < b && Times(q, b) + r < Times(m, b)
    ensures q < m
  {
    if q >= m {
      Multiple(b, m, q);
    }
  }

  lemma TimesAbove(q: nat, r: nat, b: nat, m: nat)
    requires r < b && q < m
    ensures Times(q, b) + r < Times(m, b)
  {
    Multiple(b, q + 1, m);
    assert b * (q + 1) == b * q + b;
  }

  // The chunk of a sector below n times m chunks lies in the first m chunks of its component.
  lemma StripeForward(n: nat, stride: nat, m: nat, s: nat)
    requires n > 0 && stride > 0 && s < Times(Times(m, n), stride)
    ensures StripeComp(n, stride, s) < n && StripeSector(n, stride, s) < Times(m, stride)
    ensures StripeInverse(n, stride, StripeComp(n, stride, s), StripeSector(n, stride, s)) == s
  {
    hide Times, Quotient, Remainder;
    var chunk, r := Quotient(s, stride), Remainder(s, stride);
    Parts(s, stride);
    TimesBelow(chunk, r, stride, Times(m, n));
    var q, i := Quotient(chunk, n), Remainder(chunk, n);
    Parts(chunk, n);
    TimesBelow(q, i, n, m);
    TimesAbove(q, r, stride, m);
    Split(StripeSector(n, stride, s), stride, q, r);
  }

  // Every sector of the first m chunks of a component is reached.
  lemma StripeBackward(n: nat, stride: nat, m: nat, comp: nat, sector: nat)
    requires comp < n && stride > 0 && sector < Times(m, stride)
    ensures var s := StripeInverse(n, stride, comp, sector);
      s < Times(Times(m, n), stride) && StripeComp(n, stride, s) == comp && StripeSector(n, stride, s) == sector
  {
    hide Times, Quotient, Remainder;
    var q, r := Quotient(sector, stride), Remainder(sector, stride);
    Parts(sector, stride);
    TimesBelow(q, r, stride, m);
    TimesAbove(q, comp, n, m);
    var chunk := Times(q, n) + comp;
    TimesAbove(chunk, r, stride, Times(m, n));
    Split(StripeInverse(n, stride, comp, sector), stride, chunk, r);
    Split(chunk, n, q, comp);
  }

  // ------------------------------------------------------------------ one set

  ghost function Table(rs: RaidSet): seq<Record>
    requires Bounded(rs)
  {
    match rs.kind
    case Linear => LinearTable(rs, Count(rs))
    case Stripe => StripeTable(rs, 0)
    case Mirror => MirrorTable(rs)
    case Parity => []
  }

  ghost function Length(rs: RaidSet): nat
    requires Bounded(rs)
  {
    TableLength(Table(rs))
  }

  // A set whose table the theorems are about, whatever its components are.
  ghost predicate Shaped(rs: RaidSet) {
    && Bounded(rs) && Count(rs) > 0 && !rs.kind.Parity? && !rs.maximize
    && (forall i :: 0 <= i < Count(rs) ==> SizeOf(rs, i) > 0)
    && (rs.kind.Stripe? ==>
          PowerOfTwo(rs.stride) && Times(RoundDown(Smallest(rs, 0), rs.stride), Count(rs)) < 0x1_0000_0000_0000_0000)
  }

  lemma {:induction false} LinearLength(rs: RaidSet, k: nat)
    requires k <= Count(rs)
    ensures TableLength(LinearTable(rs, k)) == LinearStart(rs, k) && AllMappable(LinearTable(rs, k))
  {
    if k > 0 {
      LinearLength(rs, k - 1);
      assert LinearTable(rs, k)[..k - 1] == LinearTable(rs, k - 1);
    }
  }

  lemma {:induction false} LinearLookup(rs: RaidSet, k: nat, s: nat) returns (i: nat)
    requires k <= Count(rs) && s < LinearStart(rs, k) && AllMappable(LinearTable(rs, k))
    ensures i < k && LinearStart(rs, i) <= s < LinearStart(rs, i) + SizeOf(rs, i)
    ensures Lookup(LinearTable(rs, k), s) == [Target(i, s - LinearStart(rs, i))]
  {
    var table := LinearTable(rs, k);
    assert table[..k - 1] == LinearTable(rs, k - 1);
    if s < LinearStart(rs, k - 1) {
      LinearLength(rs, k - 1);
      i := LinearLookup(rs, k - 1, s);
    } else {
      i := k - 1;
    }
  }

  lemma {:induction false} AllAbove(rs: RaidSet, k: nat)
    requires k <= Count(rs) && forall i :: 0 <= i < k ==> SizeOf(rs, i) > 0
    ensures |Above(rs, 0, k)| == k && forall i :: 0 <= i < k ==> Above(rs, 0, k)[i] == i
  {
    if k > 0 {
      AllAbove(rs, k - 1);
    }
  }

  lemma ChunksOf(a: nat, unit: nat)
    requires PowerOfTwo(unit)
    ensures unit > 0 && RoundDown(a, unit) == Times(Quotient(a, unit), unit) <= a
  {
    hide Quotient, Remainder, RoundDown, PowerOfTwo;
    MaskRoundsDown(a, unit);
    QuotientBounds(a, unit);
  }

  lemma TimesSwap(a: nat, b: nat, c: nat)
    ensures Times(Times(a, b), c) == Times(Times(a, c), b)
  {
    assert a * b * c == a * (b * c) == a * (c * b) == a * c * b;
  }

  // The only line of a stripe that is not maximized.
  lemma StripeLine(rs: RaidSet)
    requires Shaped(rs) && rs.kind.Stripe?
    ensures var n, m := Count(rs), Quotient(Smallest(rs, 0), rs.stride);
      && rs.stride > 0 && Table(rs) == [Layer(rs, 0, Smallest(rs, 0))]
      && |Above(rs, 0, n)| == n && (forall i :: 0 <= i < n ==> Above(rs, 0, n)[i] == i)
      && Layer(rs, 0, Smallest(rs, 0)).start == 0
      && Layer(rs, 0, Smallest(rs, 0)).length == Times(Times(m, n), rs.stride) == Times(Times(m, rs.stride), n)
      && forall i :: 0 <= i < n ==> Times(m, rs.stride) <= SizeOf(rs, i)
  {
    hide Quotient, RoundDown, Smallest, SizeOf, PowerOfTwo, Times;
    var n, min := Count(rs), Smallest(rs, 0);
    SmallestIsPositive(rs);
    SmallestHasComponents(rs, 0);
    AllAbove(rs, n);
    ChunksOf(min, rs.stride);
    TimesSwap(Quotient(min, rs.stride), rs.stride, n);
    LayerLength(rs, min);
  }

  lemma SmallestIsPositive(rs: RaidSet)
    requires Bounded(rs) && Count(rs) > 0 && forall i :: 0 <= i < Count(rs) ==> SizeOf(rs, i) > 0
    ensures Smallest(rs, 0) > 0 && forall i :: 0 <= i < Count(rs) ==> Smallest(rs, 0) <= SizeOf(rs, i)
  {
    hide SizeOf, Smallest;
    SmallestIs(rs, 0);
    assert SizeOf(rs, 0) > 0;
  }

  lemma LayerLength(rs: RaidSet, min: nat)
    requires |Above(rs, 0, Count(rs))| > 0
    requires Times(RoundDown(min, rs.stride), |Above(rs, 0, Count(rs))|) < 0x1_0000_0000_0000_0000
    ensures Layer(rs, 0, min).start == 0
    ensures Layer(rs, 0, min).length == Times(RoundDown(min, rs.stride), |Above(rs, 0, Count(rs))|)
  {
    hide RoundDown, Above, SizeOf;
    var n, r := |Above(rs, 0, Count(rs))|, RoundDown(min, rs.stride);
    assert 0 * n == 0;
    assert (r - 0) * n == Times(r, n);
  }

  // The logical sector of a component's sector.
  ghost function Inverse(rs: RaidSet, t: Target): nat
    requires t.comp < Count(rs) && (rs.kind.Stripe? ==> rs.stride > 0)
  {
    match rs.kind
    case Linear => LinearStart(rs, t.comp) + t.offset
    case Stripe => if Count(rs) == 1 then t.offset else StripeInverse(Count(rs), rs.stride, t.comp, t.offset)
    case Mirror => t.offset
    case Parity => 0
  }

  // Where a set sends a sector.
  ghost function Targets(rs: RaidSet, s: nat): seq<Target>
    requires Bounded(rs) && AllMappable(Table(rs))
  {
    Lookup(Table(rs), s)
  }

  ghost predicate MapsInto(rs: RaidSet, s: nat, ts: seq<Target>) {
    && ts != [] && (rs.kind.Stripe? ==> rs.stride > 0)
    && forall j :: 0 <= j < |ts| ==>
      ts[j].comp < Count(rs) && ts[j].offset < SizeOf(rs, ts[j].comp) && Inverse(rs, ts[j]) == s
  }

  lemma OneLine(r: Record, s: nat)
    requires Mappable(r)
    ensures AllMappable([r]) && TableLength([r]) == r.length
    ensures Contains(r, s) ==> Lookup([r], s) == MapSector(r, s)
  {
    assert [r][..0] == [];
  }

  lemma MapLinear(rs: RaidSet, s: nat)
    requires Shaped(rs) && rs.kind.Linear? && s < Length(rs)
    ensures AllMappable(Table(rs)) && MapsInto(rs, s, Targets(rs, s))
  {
    LinearLength(rs, Count(rs));
    var i := LinearLookup(rs, Count(rs), s);
  }

  lemma MapStripe(rs: RaidSet, s: nat)
    requires Shaped(rs) && rs.kind.Stripe? && s < Length(rs)
    ensures AllMappable(Table(rs)) && MapsInto(rs, s, Targets(rs, s))
  {
    hide Times, Quotient, Remainder, RoundDown, Smallest, Above, SizeOf, StripeTable, StripeComp, StripeSector,
         StripeInverse;
    StripeLine(rs);
    var n, m := Count(rs), Quotient(Smallest(rs, 0), rs.stride);
    var r := Layer(rs, 0, Smallest(rs, 0));
    OneLine(r, s);
    if n > 1 {
      StripeForward(n, rs.stride, m, s);
    } else {
      TimesOne(Times(m, rs.stride));
    }
  }

  lemma TimesOne(a: nat)
    ensures Times(a, 1) == a
  {
  }

  // A mirror of one leg is a linear table.
  lemma MapSingle(rs: RaidSet, s: nat)
    requires Shaped(rs) && rs.kind.Mirror? && Count(rs) == 1 && s < Length(rs)
    ensures AllMappable(Table(rs)) && MapsInto(rs, s, Targets(rs, s))
  {
    hide Smallest, SizeOf, StripeTable, Layer, Above;
    LinearLength(rs, 1);
    assert LinearStart(rs, 0) == 0;
    var i := LinearLookup(rs, 1, s);
  }

  lemma LegsAre(rs: RaidSet, rebuild: bool)
    ensures var legs := Legs(|rs.sets|, 0, rebuild) + Legs(|rs.devs|, |rs.sets|, rebuild);
      |legs| == Count(rs) && forall j :: 0 <= j < |legs| ==> legs[j].comp < Count(rs) && legs[j].offset == 0
  {
  }

  lemma MapLegs(rs: RaidSet, s: nat, r: Record)
    requires Shaped(rs) && rs.kind.Mirror? && r.MirrorRec? && r.start == 0 && r.length == Smallest(rs, 0)
      && s < r.length
    requires |r.legs| == Count(rs) && forall j :: 0 <= j < |r.legs| ==>
      r.legs[j].comp < Count(rs) && r.legs[j].offset == 0
    ensures MapsInto(rs, s, MapSector(r, s))
  {
    hide Smallest, SizeOf;
    SmallestIsPositive(rs);
  }

  lemma MapMirror(rs: RaidSet, s: nat)
    requires Shaped(rs) && rs.kind.Mirror? && s < Length(rs)
    ensures AllMappable(Table(rs)) && MapsInto(rs, s, Targets(rs, s))
  {
    hide Smallest, SizeOf, MapsInto, MapSector, Legs, LinearTable, StripeTable;
    SmallestIsPositive(rs);
    if Count(rs) == 1 {
      MapSingle(rs, s);
    } else {
      LegsAre(rs, rs.sync && rs.drive == 0);
      var r := Table(rs)[0];
      assert Table(rs) == [r];
      OneLine(r, s);
      MapLegs(rs, s, r);
    }
  }

  /** A sector of a set goes to at least one component, inside the size the set
      relies on; and the component and its sector give the logical sector back.
   */
  lemma MapSet(rs: RaidSet, s: nat)
    requires Shaped(rs) && s < Length(rs)
    ensures AllMappable(Table(rs)) && MapsInto(rs, s, Targets(rs, s))
  {
    hide Table, Inverse, SizeOf;
    match rs.kind
    case Linear => MapLinear(rs, s);
    case Stripe => MapStripe(rs, s);
    case Mirror => MapMirror(rs, s);
    case Parity =>
  }

  /** A stripe leaves no hole: every sector of the whole chunks of the smallest
      component, in every component, is some logical sector.
   */
  lemma {:induction false} StripeReaches(rs: RaidSet, t: Target)
    requires Shaped(rs) && rs.kind.Stripe? && t.comp < Count(rs) && t.offset < RoundDown(Smallest(rs, 0), rs.stride)
    ensures rs.stride > 0 && Inverse(rs, t) < Length(rs)
    ensures AllMappable(Table(rs)) && Targets(rs, Inverse(rs, t)) == [t]
  {
    hide Times, Quotient, Remainder, RoundDown, Smallest, Above, SizeOf, StripeTable, StripeComp, StripeSector,
         StripeInverse;
    StripeLine(rs);
    var n, m := Count(rs), Quotient(Smallest(rs, 0), rs.stride);
    ChunksOf(Smallest(rs, 0), rs.stride);
    var r := Layer(rs, 0, Smallest(rs, 0));
    TimesOne(Times(m, rs.stride));
    StripeBackward(n, rs.stride, m, t.comp, t.offset);
    OneLine(r, Inverse(rs, t));
  }

  lemma {:induction false} StartsAscend(rs: RaidSet, i: nat, j: nat)
    requires i < j <= Count(rs)
    ensures LinearStart(rs, i) + SizeOf(rs, i) <= LinearStart(rs, j)
  {
    if i < j - 1 {
      StartsAscend(rs, i, j - 1);
    }
  }

  /** A linear set fills its components one behind the other, beginning with the first sector
      of the first one.
   */
  lemma LinearInOrder(rs: RaidSet, s: nat)
    requires Shaped(rs) && rs.kind.Linear? && s < Length(rs)
    ensures AllMappable(Table(rs)) && |Targets(rs, s)| == 1 && (s == 0 ==> Targets(rs, s) == [Target(0, 0)])
    ensures s + 1 < Length(rs) ==> var t := Targets(rs, s)[0];
      && t.comp < Count(rs)
      && Targets(rs, s + 1)
         == [if t.offset + 1 < SizeOf(rs, t.comp) then Target(t.comp, t.offset + 1) else Target(t.comp + 1, 0)]
  {
    hide SizeOf, Lookup;
    LinearLength(rs, Count(rs));
    var i := LinearLookup(rs, Count(rs), s);
    if i > 0 {
      StartsAscend(rs, 0, i);
    }
    if s + 1 < Length(rs) {
      var j := LinearLookup(rs, Count(rs), s + 1);
      if j < i {
        StartsAscend(rs, j, i);
      } else if i + 1 < j {
        StartsAscend(rs, i + 1, j);
      }
    }
  }

  // Chunk c goes to component c modulo n, behind the chunks that went there before.
  predicate InTurn(n: nat, stride: nat, s: nat, t: Target)
    requires n > 0 && stride > 0
  {
    t.comp == s / stride % n && t.offset / stride == s / stride / n && t.offset % stride == s % stride
  }

  /** In plain arithmetic: the chunks of a stripe go to the components in turn. */
  lemma StripeInTurn(rs: RaidSet, s: nat)
    requires Shaped(rs) && rs.kind.Stripe? && s < Length(rs)
    ensures rs.stride > 0 && AllMappable(Table(rs)) && |Targets(rs, s)| == 1
    ensures InTurn(Count(rs), rs.stride, s, Targets(rs, s)[0])
  {
    hide Smallest, Above, SizeOf, StripeTable, RoundDown, PowerOfTwo, Times, Quotient, Remainder, StripeComp,
         StripeSector, InTurn;
    StripeLine(rs);
    MapStripe(rs, s);
    var n, r := Count(rs), Layer(rs, 0, Smallest(rs, 0));
    OneLine(r, s);
    if n > 1 {
      TurnIs(n, rs.stride, s);
      StripeForward(n, rs.stride, Quotient(Smallest(rs, 0), rs.stride), s);
      assert Targets(rs, s) == [Target(StripeComp(n, rs.stride, s), StripeSector(n, rs.stride, s))];
    } else {
      TurnOfOne(rs.stride, s);
      assert Targets(rs, s) == [Target(0, s)];
    }
  }

  lemma TurnIs(n: nat, stride: nat, s: nat)
    requires n > 0 && stride > 0
    ensures InTurn(n, stride, s, Target(StripeComp(n, stride, s), StripeSector(n, stride, s)))
  {
    hide Times;
    Parts(s, stride);
    Split(StripeSector(n, stride, s), stride, Quotient(Quotient(s, stride), n), Remainder(s, stride));
  }

  lemma TurnOfOne(stride: nat, s: nat)
    requires stride > 0
    ensures InTurn(1, stride, s, Target(0, s))
  {
  }
}
