/** The stripe table of a set whose handler asks for a maximized mapping: one line
    for every size that occurs among the components.
 */
module DmMaximize {
  import opened Rounding
  import opened RaidSets
  import opened DmTable
  import DmMapping

  // How far the components reach above a size, in all.
  function Excess(rs: RaidSet, last: nat, k: nat): nat
    requires k <= Count(rs)
  {
    if k == 0 then 0 else Excess(rs, last, k - 1) + if SizeOf(rs, k - 1) > last then SizeOf(rs, k - 1) - last else 0
  }

  // Sizes are multiples of the stride, and their sum is a 64-bit number.
  ghost predicate Layered(rs: RaidSet) {
    && Bounded(rs) && rs.maximize && Excess(rs, 0, Count(rs)) < 0x1_0000_0000_0000_0000
    && forall i :: 0 <= i < Count(rs) ==> RoundDown(SizeOf(rs, i), rs.stride) == SizeOf(rs, i)
  }

  function TargetsOf(r: Record): seq<Target> {
    match r
    case LinearRec(_, _, to) => [to]
    case StripedRec(_, _, _, targets) => targets
    case MirrorRec(_, _, _, _, legs) => legs
  }

  // The sectors that a line takes from each of its components.
  function Width(r: Record): nat {
    if TargetsOf(r) == [] then 0 else Quotient(r.length, |TargetsOf(r)|)
  }

  predicate Takes(t: Target, width: nat, i: nat, x: nat) {
    t.comp == i && t.offset <= x < t.offset + width
  }

  // The line takes sector x of component i.
  predicate Covers(r: Record, i: nat, x: nat) {
    exists j :: 0 <= j < |TargetsOf(r)| && Takes(TargetsOf(r)[j], Width(r), i, x)
  }

  function CoverCount(table: seq<Record>, i: nat, x: nat): nat {
    if table == [] then 0 else (if Covers(table[0], i, x) then 1 else 0) + CoverCount(table[1..], i, x)
  }

  // ---------------------------------------------------------------- one layer

  lemma {:induction false} ExcessSplits(rs: RaidSet, a: nat, b: nat, k: nat)
    requires a <= b && k <= Count(rs)
    requires forall i :: 0 <= i < k && SizeOf(rs, i) > a ==> SizeOf(rs, i) >= b
    ensures Excess(rs, a, k) == Times(b - a, |Above(rs, a, k)|) + Excess(rs, b, k)
  {
    hide SizeOf;
    if k > 0 {
      ExcessSplits(rs, a, b, k - 1);
      var n := |Above(rs, a, k - 1)|;
      assert (b - a) * (n + 1) == (b - a) * n + (b - a);
    }
  }

  lemma {:induction false} ExcessShrinks(rs: RaidSet, a: nat, b: nat, k: nat)
    requires a <= b && k <= Count(rs)
    ensures Excess(rs, b, k) <= Excess(rs, a, k)
  {
    hide SizeOf;
    if k > 0 {
      ExcessShrinks(rs, a, b, k - 1);
    }
  }

  // The numbers of a line, without wrap-around.
  lemma LayerIs(rs: RaidSet, last: nat)
    requires Layered(rs) && Smallest(rs, last) != 0
    ensures var min, n := Smallest(rs, last), |Above(rs, last, Count(rs))|;
      && n > 0 && min > last && (forall i :: 0 <= i < Count(rs) && SizeOf(rs, i) > last ==> SizeOf(rs, i) >= min)
      && var r := Layer(rs, last, min);
      && r.length == Times(min - last, n)
      && TargetsOf(r) == TargetsAt(Above(rs, last, Count(rs)), last) && Width(r) == min - last
      && Excess(rs, last, Count(rs)) == r.length + Excess(rs, min, Count(rs))
  {
    hide SizeOf, Smallest, Quotient, RoundDown, Above;
    var min, n := Smallest(rs, last), |Above(rs, last, Count(rs))|;
    SmallestIs(rs, last);
    SmallestHasComponents(rs, last);
    ExcessSplits(rs, last, min, Count(rs));
    ExcessShrinks(rs, 0, last, Count(rs));
    assert RoundDown(min, rs.stride) == min;
    assert (min - last) * n == Times(min - last, n);
    WidthOf(min - last, n);
    var comps := Above(rs, last, Count(rs));
    if n == 1 {
      assert comps == [comps[0]];
      assert TargetsAt(comps, last) == [Target(comps[0], last)];
    }
  }

  lemma WidthOf(w: nat, n: nat)
    requires n > 0
    ensures Quotient(Times(w, n), n) == w
  {
    assert w * n == n * w;
    UniqueRemainder(w * n, n, w, 0);
  }

  lemma LayerCovers(rs: RaidSet, last: nat, i: nat, x: nat)
    requires Layered(rs) && Smallest(rs, last) != 0 && i < Count(rs) && |Above(rs, last, Count(rs))| > 0
    ensures Covers(Layer(rs, last, Smallest(rs, last)), i, x)
      <==> SizeOf(rs, i) > last && last <= x < Smallest(rs, last)
  {
    hide SizeOf, Smallest, Width, TargetsOf, Layer, Excess;
    LayerIs(rs, last);
    AboveIs(rs, last, Count(rs));
    var comps, r := Above(rs, last, Count(rs)), Layer(rs, last, Smallest(rs, last));
    if SizeOf(rs, i) > last && last <= x < Smallest(rs, last) {
      var j :| 0 <= j < |comps| && comps[j] == i;
      assert Takes(TargetsOf(r)[j], Width(r), i, x);
    }
  }

  // ---------------------------------------------------------------- all layers

  /** The slices that the lines take from a component cover each of its sectors
      exactly once, and nothing past its end.
   */
  lemma {:induction false} SlicesPartition(rs: RaidSet, last: nat, i: nat, x: nat)
    requires Layered(rs) && i < Count(rs)
    ensures CoverCount(StripeTable(rs, last), i, x) == if last <= x < SizeOf(rs, i) then 1 else 0
    decreases |Above(rs, last, Count(rs))|
  {
    hide SizeOf, Smallest, Layer, Covers, StripeTable, Above;
    SmallestIs(rs, last);
    if Smallest(rs, last) == 0 {
      StripeEnd(rs, last);
    } else {
      var min := Smallest(rs, last);
      StripeStep(rs, last);
      LayerCovers(rs, last, i, x);
      SlicesPartition(rs, min, i, x);
      assert StripeTable(rs, last)[1..] == StripeTable(rs, min);
    }
  }

  lemma {:induction false} LengthOfMore(r: Record, table: seq<Record>)
    ensures DmMapping.TableLength([r] + table) == r.length + DmMapping.TableLength(table)
  {
    var t := [r] + table;
    if table == [] {
      assert t[..0] == [];
    } else {
      assert t[..|t| - 1] == [r] + table[..|table| - 1];
      LengthOfMore(r, table[..|table| - 1]);
    }
  }

  /** The lengths of the lines add up to the sizes of the components. */
  lemma {:induction false} LengthsSum(rs: RaidSet, last: nat)
    requires Layered(rs)
    ensures DmMapping.TableLength(StripeTable(rs, last)) == Excess(rs, last, Count(rs))
    decreases |Above(rs, last, Count(rs))|
  {
    hide SizeOf, Smallest, Layer, StripeTable, Above;
    SmallestIs(rs, last);
    if Smallest(rs, last) == 0 {
      StripeEnd(rs, last);
      NoExcess(rs, last, Count(rs));
    } else {
      StripeStep(rs, last);
      LayerIs(rs, last);
      LengthsSum(rs, Smallest(rs, last));
      LengthOfMore(Layer(rs, last, Smallest(rs, last)), StripeTable(rs, Smallest(rs, last)));
    }
  }

  lemma {:induction false} NoExcess(rs: RaidSet, last: nat, k: nat)
    requires k <= Count(rs) && forall i :: 0 <= i < k ==> SizeOf(rs, i) <= last
    ensures Excess(rs, last, k) == 0
  {
    hide SizeOf;
    if k > 0 {
      NoExcess(rs, last, k - 1);
    }
  }

  lemma {:induction false} TotalIsExcess(rs: RaidSet, k: nat)
    requires Layered(rs) && rs.sets == [] && rs.kind.Stripe? && rs.stride != 0 && k <= |rs.devs|
    ensures AddDevs(rs, 0, k) == Excess(rs, 0, k)
  {
    hide RoundDown;
    if k > 0 {
      TotalIsExcess(rs, k - 1);
      assert RoundDown(SizeOf(rs, k - 1), rs.stride) == SizeOf(rs, k - 1);
    }
  }

  /** A maximized stripe over disks maps exactly the size it advertises. */
  lemma MaximizedLengthIsTotal(rs: RaidSet)
    requires Layered(rs) && rs.sets == [] && rs.kind.Stripe? && rs.stride != 0
    ensures DmMapping.TableLength(StripeTable(rs, 0)) == Total(rs)
  {
    hide RoundDown, Smallest;
    LengthsSum(rs, 0);
    TotalIsExcess(rs, |rs.devs|);
    assert AddSets(rs, 0) == 0;
  }

  // The different sizes above a size.
  ghost function SizesAbove(rs: RaidSet, last: nat): set<nat> {
    set i | 0 <= i < Count(rs) && SizeOf(rs, i) > last :: SizeOf(rs, i)
  }

  /** The loop ends after one line for every different size. */
  lemma {:induction false} OneLinePerSize(rs: RaidSet, last: nat)
    requires Layered(rs)
    ensures |StripeTable(rs, last)| == |SizesAbove(rs, last)|
    decreases |Above(rs, last, Count(rs))|
  {
    hide SizeOf, Smallest, Layer, StripeTable, Above;
    SmallestIs(rs, last);
    var min := Smallest(rs, last);
    if min == 0 {
      StripeEnd(rs, last);
      assert SizesAbove(rs, last) == {};
    } else {
      StripeStep(rs, last);
      OneLinePerSize(rs, min);
      assert SizesAbove(rs, last) == SizesAbove(rs, min) + {min};
      assert min !in SizesAbove(rs, min);
    }
  }

  // Every line starts where the lines before it end, as the device mapper demands.
  ghost predicate Contiguous(table: seq<Record>) {
    forall k :: 0 <= k < |table| ==> table[k].start == DmMapping.TableLength(table[..k])
  }

  /** The starts, the smallest size so far times the components that are left, fit
      together exactly when there is a single size.
   */
  lemma StartsFitIff(rs: RaidSet)
    requires Layered(rs)
    ensures Contiguous(StripeTable(rs, 0)) <==> |SizesAbove(rs, 0)| <= 1
  {
    hide SizeOf, Smallest, StripeTable, Above, SizesAbove, Excess;
    OneLinePerSize(rs, 0);
    var min := Smallest(rs, 0);
    var table := StripeTable(rs, 0);
    if min == 0 {
      StripeEnd(rs, 0);
    } else {
      StripeStep(rs, 0);
      FirstStart(rs, 0, min);
      assert table[..0] == [];
      if Smallest(rs, min) == 0 {
        StripeEnd(rs, min);
      } else {
        StripeStep(rs, min);
        SecondStart(rs);
        assert table[..1] == [table[0]];
        assert table[1] == Layer(rs, min, Smallest(rs, min));
        assert [table[0]][..0] == [];
      }
    }
  }

  lemma FirstStart(rs: RaidSet, last: nat, min: nat)
    requires last == 0 && |Above(rs, last, Count(rs))| > 0
    ensures Layer(rs, last, min).start == 0
  {
    hide Above, RoundDown;
    assert last * |Above(rs, last, Count(rs))| == 0;
  }

  lemma SecondStart(rs: RaidSet)
    requires Layered(rs) && Smallest(rs, 0) != 0 && Smallest(rs, Smallest(rs, 0)) != 0
    ensures var min := Smallest(rs, 0);
      && |Above(rs, min, Count(rs))| > 0 && |Above(rs, 0, Count(rs))| > 0
      && Layer(rs, min, Smallest(rs, min)).start != Layer(rs, 0, min).length
  {
    hide SizeOf, Smallest, Above, RoundDown, Times;
    var min := Smallest(rs, 0);
    LayerIs(rs, 0);
    LayerIs(rs, min);
    SmallestHasComponents(rs, 0);
    var n, m := |Above(rs, 0, Count(rs))|, |Above(rs, min, Count(rs))|;
    FewerTimes(min, m, n);
  }

  lemma FewerTimes(a: nat, m: nat, n: nat)
    requires a > 0 && m < n
    ensures a * m == Times(a, m) < Times(a, n)
  {
    Multiple(a, m + 1, n);
    assert a * (m + 1) == a * m + a;
  }
}
