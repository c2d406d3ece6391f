/** What the advertised size of a RAID set is, whatever its components are: total_sectors of
    lib/metadata/metadata.c.
 */
module RaidTotals {
  import opened Rounding
  import opened RaidSets

  // What a component has to offer: a subset its own size; a disk its size in a maximized set,
  // and otherwise that of the smallest disk.
  function Offered(rs: RaidSet, i: nat): nat
    requires i < Count(rs)
  {
    if i < |rs.sets| then Total(rs.sets[i])
    else if rs.maximize then rs.devs[i - |rs.sets|].sectors
    else SmallestOf(rs.devs)
  }

  // In whole strides.
  function Share(rs: RaidSet, i: nat): nat
    requires i < Count(rs)
  {
    if rs.stride != 0 then RoundDown(Offered(rs, i), rs.stride) else Offered(rs, i)
  }

  function Sum(rs: RaidSet, k: nat): nat
    requires k <= Count(rs)
  {
    if k == 0 then 0 else Sum(rs, k - 1) + Share(rs, k - 1)
  }

  // The running total behind k components.
  function Running(rs: RaidSet, k: nat): nat
    requires k <= Count(rs)
  {
    if k <= |rs.sets| then AddSets(rs, k) else AddDevs(rs, AddSets(rs, |rs.sets|), k - |rs.sets|)
  }

  lemma RunningStep(rs: RaidSet, k: nat)
    requires k < Count(rs)
    ensures Running(rs, k + 1)
         == if !rs.kind.Mirror? then Running(rs, k) + Share(rs, k)
            else if Running(rs, k) == 0 || Running(rs, k) > Share(rs, k) then Share(rs, k) else Running(rs, k)
  {
    hide RoundDown;
  }

  lemma RunningEnds(rs: RaidSet)
    ensures Running(rs, 0) == 0 && Total(rs) == LessParity(rs, Running(rs, Count(rs)))
  {
  }

  lemma {:induction false} RunningIsSum(rs: RaidSet, k: nat)
    requires k <= Count(rs) && !rs.kind.Mirror?
    ensures Running(rs, k) == Sum(rs, k)
  {
    hide Running, Share;
    if k == 0 {
      RunningEnds(rs);
    } else {
      RunningIsSum(rs, k - 1);
      RunningStep(rs, k - 1);
    }
  }

  /** A linear or striped set advertises the sum of its shares, and a RAID 4 or 5 set that sum
      without the share of one part.
   */
  lemma TotalIsSum(rs: RaidSet)
    requires !rs.kind.Mirror?
    ensures var n, sum := if |rs.sets| != 0 then |rs.sets| else |rs.devs|, Sum(rs, Count(rs));
      Total(rs) == if rs.kind.Parity? && n != 0 then sum - sum / n else sum
  {
    hide Running, Share;
    RunningIsSum(rs, Count(rs));
    RunningEnds(rs);
  }

  ghost predicate Least(rs: RaidSet, k: nat, r: nat)
    requires k <= Count(rs)
  {
    (forall i :: 0 <= i < k ==> r <= Share(rs, i)) && exists i :: 0 <= i < k && r == Share(rs, i)
  }

  // A share of nothing is forgotten when another one follows.
  lemma {:induction false} RunningMirror(rs: RaidSet, k: nat)
    requires 0 < k <= Count(rs) && rs.kind.Mirror?
    ensures Least(rs, k, Running(rs, k)) <==> (forall i :: 0 <= i < k ==> Share(rs, i) > 0) || Share(rs, k - 1) == 0
    ensures Running(rs, k) == 0 <==> Share(rs, k - 1) == 0
  {
    hide Running, Share;
    RunningEnds(rs);
    RunningStep(rs, k - 1);
    if k > 1 {
      RunningMirror(rs, k - 1);
      LeastOfMore(rs, k);
    } else {
      assert Share(rs, 0) == Running(rs, 1);
    }
  }

  lemma LeastOfMore(rs: RaidSet, k: nat)
    requires 1 < k <= Count(rs)
    ensures var a, b := Running(rs, k - 1), Share(rs, k - 1);
      && (a > 0 && Least(rs, k - 1, a) ==> Least(rs, k, if a > b then b else a))
      && (b == 0 ==> Least(rs, k, 0))
      && (forall i, r :: 0 <= i < k && Share(rs, i) == 0 && Least(rs, k, r) ==> r == 0)
  {
    hide Running, Share;
    var a, b := Running(rs, k - 1), Share(rs, k - 1);
    if a > 0 && Least(rs, k - 1, a) {
      var i :| 0 <= i < k - 1 && a == Share(rs, i);
    }
  }

  /** A mirror advertises the least of its shares exactly when none of them is empty, or the
      last one is.
   */
  lemma MirrorTotalIff(rs: RaidSet)
    requires rs.kind.Mirror? && Count(rs) > 0
    ensures Least(rs, Count(rs), Total(rs))
            <==> (forall i :: 0 <= i < Count(rs) ==> Share(rs, i) > 0) || Share(rs, Count(rs) - 1) == 0
  {
    hide Running, Share;
    RunningMirror(rs, Count(rs));
    RunningEnds(rs);
  }

  /** The size that disks offer in a set that is not maximized is that of the smallest one. */
  lemma {:induction false} SmallestOfIs(devs: seq<Disk>)
    requires devs != [] && forall k :: 0 <= k < |devs| ==> devs[k].sectors <= UNBOUNDED
    ensures forall k :: 0 <= k < |devs| ==> SmallestOf(devs) <= devs[k].sectors
    ensures exists k :: 0 <= k < |devs| && SmallestOf(devs) == devs[k].sectors
  {
    var n := |devs| - 1;
    if n > 0 {
      SmallestOfIs(devs[..n]);
      var k :| 0 <= k < n && SmallestOf(devs[..n]) == devs[..n][k].sectors;
      assert devs[k].sectors == SmallestOf(devs[..n]);
      assert SmallestOf(devs) == devs[k].sectors || SmallestOf(devs) == devs[n].sectors;
    } else {
      assert SmallestOf(devs[..n]) == UNBOUNDED;
      assert devs[n].sectors == SmallestOf(devs);
    }
  }
}
