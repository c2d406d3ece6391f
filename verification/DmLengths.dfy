/** The size that total_sectors advertises and the length of the table that is
    loaded are computed separately; when they agree.
 */
module DmLengths {
  import opened Rounding
  import opened RaidSets
  import opened DmTable
  import opened DmMapping
  import DmStack

  // A set of disks only, none of them empty.
  ghost predicate Leaf(rs: RaidSet) {
    && rs.sets == [] && rs.devs != [] && !rs.maximize
    && forall i :: 0 <= i < |rs.devs| ==> 0 < rs.devs[i].sectors < UNBOUNDED
  }

  function Whole(rs: RaidSet, size: nat): nat {
    if rs.stride != 0 then RoundDown(size, rs.stride) else size
  }

  lemma {:induction false} SmallestOfLeaf(rs: RaidSet, k: nat)
    requires rs.sets == [] && k <= |rs.devs| && forall i :: 0 <= i < k ==> 0 < rs.devs[i].sectors
    ensures SmallestAmong(rs, 0, k) == SmallestOf(rs.devs[..k])
  {
    if k > 0 {
      SmallestOfLeaf(rs, k - 1);
      assert rs.devs[..k][..k - 1] == rs.devs[..k - 1];
    }
  }

  lemma LeafIsBounded(rs: RaidSet)
    requires Leaf(rs)
    ensures Bounded(rs) && Count(rs) > 0 && Count(rs) == |rs.devs|
    ensures forall i :: 0 <= i < Count(rs) ==> SizeOf(rs, i) > 0
    ensures Smallest(rs, 0) == SmallestOf(rs.devs) > 0
  {
    SmallestOfLeaf(rs, |rs.devs|);
    assert rs.devs[..|rs.devs|] == rs.devs;
    SmallestAmongIs(rs, 0, Count(rs));
    assert SizeOf(rs, 0) < UNBOUNDED;
  }

  lemma {:induction false} LeafSum(rs: RaidSet, k: nat)
    requires Leaf(rs) && k <= |rs.devs|
    ensures AddDevs(rs, 0, k)
         == if rs.kind.Mirror? then (if k == 0 then 0 else Whole(rs, SmallestOf(rs.devs)))
           else Times(Whole(rs, SmallestOf(rs.devs)), k)
  {
    hide RoundDown, SmallestOf;
    if k > 0 {
      LeafSum(rs, k - 1);
      var w := Whole(rs, SmallestOf(rs.devs));
      assert w * (k - 1) + w == w * k;
    }
  }

  lemma LeafTotal(rs: RaidSet)
    requires Leaf(rs)
    ensures var w := Whole(rs, Smallest(rs, 0));
      Total(rs) == match rs.kind
                   case Mirror => w
                   case Parity => Times(w, |rs.devs| - 1)
                   case _ => Times(w, |rs.devs|)
  {
    hide RoundDown, SmallestOf, Smallest, Whole;
    LeafIsBounded(rs);
    LeafSum(rs, |rs.devs|);
    var w, n := Whole(rs, Smallest(rs, 0)), |rs.devs|;
    assert AddSets(rs, 0) == 0;
    if rs.kind.Parity? {
      ShareOfSame(w, n);
    }
  }

  lemma ShareOfSame(w: nat, n: nat)
    requires n > 0
    ensures Times(w, n) - Quotient(Times(w, n), n) == Times(w, n - 1)
  {
    assert w * n == n * w;
    UniqueRemainder(w * n, n, w, 0);
    assert w * n - w == w * (n - 1);
  }

  // Nothing wraps around in the lengths of a stripe.
  ghost predicate Small(rs: RaidSet) {
    Times(RoundDown(Smallest(rs, 0), rs.stride), Count(rs)) < 0x1_0000_0000_0000_0000
  }

  /** For a stripe over disks the table is exactly as long as the advertised size. */
  lemma StripeLengthIsTotal(rs: RaidSet)
    requires Leaf(rs) && rs.kind.Stripe? && rs.stride > 0 && Small(rs)
    ensures Bounded(rs) && Length(rs) == Total(rs)
  {
    hide RoundDown, Smallest, SizeOf, Times;
    LeafIsBounded(rs);
    LeafTotal(rs);
    SmallestHasComponents(rs, 0);
    AllAbove(rs, Count(rs));
    LayerLength(rs, Smallest(rs, 0));
    OneLength(Layer(rs, 0, Smallest(rs, 0)));
  }

  lemma OneLength(r: Record)
    ensures TableLength([r]) == r.length
  {
    assert [r][..0] == [];
  }

  /** For a mirror over disks the table, rounded to the stride, is the advertised size. */
  lemma {:induction false} MirrorLengthRoundsToTotal(rs: RaidSet)
    requires Leaf(rs) && rs.kind.Mirror?
    ensures Bounded(rs) && Whole(rs, Length(rs)) == Total(rs)
  {
    hide RoundDown, Whole, SmallestOf;
    LeafIsBounded(rs);
    LeafTotal(rs);
    if |rs.devs| == 1 {
      LinearLength(rs, 1);
      assert LinearStart(rs, 0) == 0;
      SmallestIs(rs, 0);
    } else {
      OneLength(Table(rs)[0]);
      assert Table(rs) == [Table(rs)[0]];
    }
  }

  // The sum of sizes that are at least w.
  lemma {:induction false} LinearAtLeast(rs: RaidSet, w: nat, k: nat)
    requires k <= Count(rs) && forall i :: 0 <= i < k ==> w <= SizeOf(rs, i)
    ensures Times(w, k) <= LinearStart(rs, k)
  {
    hide SizeOf;
    if k > 0 {
      LinearAtLeast(rs, w, k - 1);
      assert w * (k - 1) + w == w * k;
    }
  }

  lemma WholeBelow(rs: RaidSet, size: nat)
    ensures Whole(rs, size) <= size
  {
  }

  /** A linear table over disks is never shorter than the advertised size, which
      counts every disk as if it were the smallest.
   */
  lemma LinearLengthCoversTotal(rs: RaidSet)
    requires Leaf(rs) && rs.kind.Linear?
    ensures Bounded(rs) && Length(rs) >= Total(rs)
  {
    hide RoundDown, Whole, SmallestOf, Smallest, SizeOf;
    LeafIsBounded(rs);
    LeafTotal(rs);
    SmallestIsPositive(rs);
    var w := Whole(rs, Smallest(rs, 0));
    WholeBelow(rs, Smallest(rs, 0));
    LinearAtLeast(rs, w, Count(rs));
    LinearLength(rs, Count(rs));
  }

  /** For RAID 4 and 5 over disks, which divides by the stride on one side and masks
      bits on the other, the two agree for every set exactly when they round alike.
   */
  lemma ParityLengthIsTotal(rs: RaidSet)
    requires Leaf(rs) && rs.kind.Parity? && rs.stride > 0 && |rs.devs| >= 2
    ensures ParityLength(rs, |rs.devs|) == Total(rs)
      <==> RoundDown(Smallest(rs, 0), rs.stride) == Floor(Smallest(rs, 0), rs.stride)
  {
    hide RoundDown, Smallest, Remainder, Quotient;
    LeafTotal(rs);
    var a, n := Smallest(rs, 0), |rs.devs|;
    QuotientBounds(a, rs.stride);
    SameFactor(Times(Quotient(a, rs.stride), rs.stride), RoundDown(a, rs.stride), n - 1);
  }

  // Two disks of one stride each.
  function Probe(stride: nat): RaidSet {
    RaidSet(Parity, stride, false, false, -1, [], [Disk(0, 0, stride), Disk(1, 0, stride)])
  }

  lemma ProbeIs(stride: nat)
    requires 0 < stride < UNBOUNDED
    ensures Leaf(Probe(stride)) && Smallest(Probe(stride), 0) == stride
  {
    var rs := Probe(stride);
    LeafIsBounded(rs);
    assert rs.devs[..1] == [rs.devs[0]] && rs.devs[..0] == [];
    assert SmallestOf(rs.devs[..1]) == stride;
  }

  // A set of disks of RAID 4 or 5.
  ghost predicate ParityLeaf(rs: RaidSet, stride: nat) {
    Leaf(rs) && rs.kind.Parity? && rs.stride == stride && |rs.devs| >= 2
  }

  /** A stride is a power of two exactly when all RAID 4 and 5 sets of that stride map
      what they advertise.
   */
  lemma StrideIsPowerIff(stride: nat)
    requires 0 < stride < UNBOUNDED
    ensures PowerOfTwo(stride) <==> forall rs :: ParityLeaf(rs, stride) ==> ParityLength(rs, |rs.devs|) == Total(rs)
  {
    hide RoundDown, Smallest, PowerOfTwo, Leaf, ParityLength, Total, Floor;
    if PowerOfTwo(stride) {
      forall rs | ParityLeaf(rs, stride) ensures ParityLength(rs, |rs.devs|) == Total(rs) {
        ParityLengthIsTotal(rs);
        MaskRoundsDown(Smallest(rs, 0), stride);
      }
    }
    if forall rs :: ParityLeaf(rs, stride) ==> ParityLength(rs, |rs.devs|) == Total(rs) {
      var rs := Probe(stride);
      ProbeIs(stride);
      assert ParityLeaf(rs, stride);
      ParityLengthIsTotal(rs);
      PowerIfItself(stride);
    }
  }

  lemma SameFactor(a: nat, b: nat, c: nat)
    requires c > 0
    ensures Times(a, c) == Times(b, c) <==> a == b
  {
    if a < b {
      Multiple(c, a + 1, b);
    } else if b < a {
      Multiple(c, b + 1, a);
    }
  }

  // ------------------------------------------------------------------ stacks

  lemma LeafCovers(rs: RaidSet)
    requires Leaf(rs) && Shaped(rs)
    ensures Length(rs) >= Total(rs)
  {
    match rs.kind
    case Linear => LinearLengthCoversTotal(rs);
    case Stripe =>
      StripeLengthIsTotal(rs);
    case Mirror =>
      MirrorLengthRoundsToTotal(rs);
      WholeBelow(rs, Length(rs));
  }

  /** A stack of two levels is sane as soon as each of its sets is in shape. */
  lemma TwoLevelsAreSane(rs: RaidSet)
    requires Shaped(rs) && forall i :: 0 <= i < |rs.sets| ==> Leaf(rs.sets[i]) && Shaped(rs.sets[i])
    ensures DmStack.Sane(rs)
  {
    hide Leaf, Table, TableLength, Total, SizeOf;
    forall i | 0 <= i < |rs.sets| ensures DmStack.Sane(rs.sets[i]) && Length(rs.sets[i]) >= Total(rs.sets[i]) {
      LeafHasNoSets(rs.sets[i]);
      LeafCovers(rs.sets[i]);
    }
  }

  lemma LeafHasNoSets(rs: RaidSet)
    requires Leaf(rs)
    ensures rs.sets == []
  {
  }

  lemma {:induction false} SetsSum(rs: RaidSet, k: nat, w: nat)
    requires rs.kind.Stripe? && k <= |rs.sets| && forall i :: 0 <= i < k ==> w <= Whole(rs, Total(rs.sets[i]))
    ensures AddSets(rs, k) >= Times(w, k)
    ensures AddSets(rs, k) == Times(w, k) <==> forall i :: 0 <= i < k ==> Whole(rs, Total(rs.sets[i])) == w
  {
    hide RoundDown, Total;
    if k > 0 {
      SetsSum(rs, k - 1, w);
      assert w * (k - 1) + w == w * k;
    }
  }

  lemma FloorGrows(a: nat, b: nat, unit: nat)
    requires a <= b && unit > 0
    ensures Floor(a, unit) <= Floor(b, unit)
  {
    hide Quotient, Remainder;
    QuotientBounds(a, unit);
    QuotientBounds(b, unit);
    var p, q := Quotient(a, unit), Quotient(b, unit);
    assert unit * (q + 1) == unit * q + unit;
    if p > q {
      Multiple(unit, q + 1, p);
    } else {
      Multiple(unit, p, q);
    }
  }

  /** A stripe over subsets advertises its table's length exactly when all subsets
      round to the same size; otherwise it advertises more than it maps, and a set
      above it would rely on sectors that are not there.
   */
  lemma StackedStripe(rs: RaidSet)
    requires Shaped(rs) && rs.kind.Stripe? && rs.devs == []
    ensures Length(rs) <= Total(rs)
    ensures Length(rs) == Total(rs)
            <==> forall i :: 0 <= i < |rs.sets| ==>
              RoundDown(Total(rs.sets[i]), rs.stride) == RoundDown(Smallest(rs, 0), rs.stride)
  {
    hide RoundDown, Smallest, SizeOf, Times, AddSets;
    SmallestIsPositive(rs);
    SmallestHasComponents(rs, 0);
    AllAbove(rs, Count(rs));
    LayerLength(rs, Smallest(rs, 0));
    OneLength(Layer(rs, 0, Smallest(rs, 0)));
    var w := Whole(rs, Smallest(rs, 0));
    forall i | 0 <= i < |rs.sets| ensures w <= Whole(rs, Total(rs.sets[i])) {
      SubsetSize(rs, i);
      RoundDownGrows(Smallest(rs, 0), Total(rs.sets[i]), rs.stride);
    }
    SetsSum(rs, |rs.sets|, w);
  }

  lemma SubsetSize(rs: RaidSet, i: nat)
    requires i < |rs.sets|
    ensures SizeOf(rs, i) == Total(rs.sets[i])
  {
  }

  lemma RoundDownGrows(a: nat, b: nat, unit: nat)
    requires a <= b && PowerOfTwo(unit)
    ensures RoundDown(a, unit) <= RoundDown(b, unit)
  {
    MaskRoundsDown(a, unit);
    MaskRoundsDown(b, unit);
    FloorGrows(a, b, unit);
  }
}
