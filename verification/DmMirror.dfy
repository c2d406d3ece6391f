/** Which components are the legs of a mirror, and where its sectors are on the disks. */
module DmMirror {
  import opened RaidSets
  import opened DmTable
  import opened DmMapping
  import opened DmStack

  // The component of the j-th leg: in the order of the set, unless its first drive is
  // rebuilt; then the first of the subsets and the first of the disks go behind the others.
  function LegComp(rs: RaidSet, j: nat): nat
    requires j < Count(rs)
  {
    var n := |rs.sets|;
    if !(rs.sync && rs.drive == 0) then j
    else if j < n then (if j + 1 < n then j + 1 else 0)
    else if j + 1 < Count(rs) then j + 1 else n
  }

  lemma LegIs(n: nat, first: nat, rebuild: bool, j: nat)
    requires j < n
    ensures Legs(n, first, rebuild)[j]
         == Target(first + if !rebuild then j else if j + 1 < n then j + 1 else 0, 0)
  {
  }

  lemma LegsOf(rs: RaidSet, s: nat)
    requires Shaped(rs) && rs.kind.Mirror? && s < Length(rs)
    ensures AllMappable(Table(rs)) && |Targets(rs, s)| == Count(rs)
    ensures forall j :: 0 <= j < Count(rs) ==> Targets(rs, s)[j] == Target(LegComp(rs, j), s)
  {
    hide Smallest, SizeOf, Legs, LinearTable, StripeTable;
    SmallestIsPositive(rs);
    MapMirror(rs, s);
    if Count(rs) == 1 {
      SingleLeg(rs, s);
    } else {
      ManyLegs(rs, s);
    }
  }

  lemma SingleLeg(rs: RaidSet, s: nat)
    requires Shaped(rs) && rs.kind.Mirror? && s < Length(rs) && Count(rs) == 1
    ensures AllMappable(Table(rs)) && Targets(rs, s) == [Target(0, s)]
  {
    hide Smallest, SizeOf, StripeTable, Layer, Above;
    LinearLength(rs, 1);
    assert LinearStart(rs, 0) == 0;
    var i := LinearLookup(rs, 1, s);
  }

  lemma ManyLegs(rs: RaidSet, s: nat)
    requires Shaped(rs) && rs.kind.Mirror? && s < Length(rs) && Count(rs) > 1
    ensures AllMappable(Table(rs)) && |Targets(rs, s)| == Count(rs)
    ensures forall j :: 0 <= j < Count(rs) ==> Targets(rs, s)[j] == Target(LegComp(rs, j), s)
  {
    hide Smallest, SizeOf, Legs, LinearTable, StripeTable;
    SmallestIsPositive(rs);
    var r := Table(rs)[0];
    assert Table(rs) == [r];
    OneLine(r, s);
    var n, first := |rs.sets|, rs.sync && rs.drive == 0;
    forall j | 0 <= j < Count(rs) ensures r.legs[j] == Target(LegComp(rs, j), 0) {
      if j < n {
        LegIs(n, 0, first, j);
      } else {
        LegIs(|rs.devs|, n, first, j - n);
      }
    }
  }

  lemma LegCompIsOnto(rs: RaidSet, i: nat) returns (j: nat)
    requires i < Count(rs)
    ensures j < Count(rs) && LegComp(rs, j) == i
  {
    var n := |rs.sets|;
    if !(rs.sync && rs.drive == 0) {
      j := i;
    } else if i < n {
      j := if i > 0 then i - 1 else n - 1;
    } else {
      j := if i > n then i - 1 else Count(rs) - 1;
    }
  }

  lemma LegCompIsOneToOne(rs: RaidSet, j: nat, k: nat)
    requires j < k < Count(rs)
    ensures LegComp(rs, j) != LegComp(rs, k)
  {
  }

  /** A sector of a mirror goes to the same sector of every component, and to each once. */
  lemma EveryLegOnce(rs: RaidSet, s: nat)
    requires Shaped(rs) && rs.kind.Mirror? && s < Length(rs)
    ensures AllMappable(Table(rs)) && |Targets(rs, s)| == Count(rs)
    ensures forall i :: 0 <= i < Count(rs) ==> Target(i, s) in Targets(rs, s)
    ensures forall j, k :: 0 <= j < k < Count(rs) ==> Targets(rs, s)[j] != Targets(rs, s)[k]
  {
    hide Smallest, SizeOf, Table, Lookup, LegComp;
    LegsOf(rs, s);
    forall i | 0 <= i < Count(rs) ensures Target(i, s) in Targets(rs, s) {
      var j := LegCompIsOnto(rs, i);
      assert Targets(rs, s)[j] == Target(i, s);
    }
    forall j, k | 0 <= j < k < Count(rs) ensures Targets(rs, s)[j] != Targets(rs, s)[k] {
      LegCompIsOneToOne(rs, j, k);
    }
  }

  /** The legs are in the order of the components; when the first drive is to be rebuilt, the
      first subset is behind the other subsets, and the first disk behind the other disks.
   */
  lemma LegOrder(rs: RaidSet, s: nat)
    requires Shaped(rs) && rs.kind.Mirror? && s < Length(rs)
    ensures AllMappable(Table(rs)) && |Targets(rs, s)| == Count(rs)
    ensures var n, all, ts := |rs.sets|, Count(rs), Targets(rs, s);
      if !(rs.sync && rs.drive == 0) then forall j :: 0 <= j < all ==> ts[j] == Target(j, s)
      else
        && (forall j :: 0 <= j < n - 1 || n <= j < all - 1 ==> ts[j] == Target(j + 1, s))
        && (n > 0 ==> ts[n - 1] == Target(0, s)) && (n < all ==> ts[all - 1] == Target(n, s))
  {
    hide Shaped, Length, Targets;
    LegsOf(rs, s);
  }

  /** So a sector of a mirror is wherever that sector of a component is. */
  lemma {:induction false} MirrorHitsIff(rs: RaidSet, s: nat, p: Place)
    requires Sane(rs) && rs.kind.Mirror? && s < Length(rs)
    ensures forall i :: 0 <= i < Count(rs) ==> s < SizeOf(rs, i)
    ensures Hits(rs, s, p) <==> exists i :: 0 <= i < Count(rs) && HitsComp(rs, Target(i, s), p)
  {
    hide Shaped, Length, HitsComp, Targets, SizeOf;
    EveryLegOnce(rs, s);
    LegsOf(rs, s);
    var ts := Where(rs, s);
    forall i | 0 <= i < Count(rs) ensures s < SizeOf(rs, i) && Target(i, s) in ts {
      assert Target(i, s) in ts;
      var j :| 0 <= j < |ts| && ts[j] == Target(i, s);
    }
    if i :| 0 <= i < Count(rs) && HitsComp(rs, Target(i, s), p) {
      var j :| 0 <= j < |ts| && ts[j] == Target(i, s);
      assert HitsComp(rs, ts[j], p);
    }
  }

  /** Every sector of a mirror of disks is on every disk. */
  lemma OnEveryDisk(rs: RaidSet, s: nat, k: nat)
    requires Sane(rs) && rs.kind.Mirror? && rs.sets == [] && s < Length(rs) && k < |rs.devs|
    ensures Hits(rs, s, Place(rs.devs[k].path, rs.devs[k].offset + s))
  {
    hide Shaped, Length, Hits;
    MirrorHitsIff(rs, s, Place(rs.devs[k].path, rs.devs[k].offset + s));
    assert HitsComp(rs, Target(k, s), Place(rs.devs[k].path, rs.devs[k].offset + s));
  }
}
