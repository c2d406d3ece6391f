/** Filling the list of a degraded RAID 4/5 set with dummies, dm_raid45 in
    lib/activate/activate.c, so that every drive takes the slot of its index.
 */
module RaidSlots {

  // A drive found, with the index its metadata gives it, or a dummy on the error target.
  datatype Entry = Real(index: nat) | Dummy

  function Dummies(n: int): (r: seq<Entry>)
    ensures |r| == (if n > 0 then n else 0) && forall k :: 0 <= k < |r| ==> r[k] == Dummy
  {
    if n > 0 then seq(n, k => Dummy) else []
  }

  // The list from slot i on.
  function Filled(found: seq<nat>, i: nat, ndev: nat): seq<Entry> {
    if found == [] then Dummies(ndev - i)
    else Dummies(found[0] - i) + [Real(found[0])] + Filled(found[1..], (if found[0] > i then found[0] else i) + 1, ndev)
  }

  function Reals(found: seq<nat>): (r: seq<Entry>)
    ensures |r| == |found| && forall k :: 0 <= k < |r| ==> r[k] == Real(found[k])
  {
    seq(|found|, k requires 0 <= k < |found| => Real(found[k]))
  }

  class RaidList {
    var devs: seq<Entry>
    var members: nat

    constructor (found: seq<nat>)
      ensures devs == Reals(found) && members == |found|
    {
      devs, members := Reals(found), |found|;
    }

    // Insert a dummy before a node of the list.
    method AddDummy(pos: nat)
      requires pos <= |devs|
      modifies this
      ensures devs == old(devs[..pos]) + [Dummy] + old(devs[pos..]) && members == old(members) + 1
    {
      devs := devs[..pos] + [Dummy] + devs[pos..];
      members := members + 1;
    }

    // while (i < upTo): dummies before the node at pos.
    method FillUpTo(pos: nat, i: nat, upTo: nat) returns (at: nat, next: nat)
      requires pos <= |devs| && members == |devs|
      modifies this
      ensures devs == old(devs[..pos]) + Dummies(upTo - i) + old(devs[pos..]) && members == |devs|
      ensures at == pos + |Dummies(upTo - i)| && next == if i < upTo then upTo else i
    {
      at, next := pos, i;
      while next < upTo
        invariant i <= next && (next <= upTo || next == i) && at == pos + (next - i) && members == |devs|
        invariant devs == old(devs[..pos]) + Dummies(next - i) + old(devs[pos..])
      {
        AddDummy(at);
        assert Dummies(next + 1 - i) == Dummies(next - i) + [Dummy];
        at, next := at + 1, next + 1;
      }
    }

    // The loops of dm_raid45; ndev is the number of drives the metadata counts.
    method Fill(ghost found: seq<nat>, ndev: nat)
      requires devs == Reals(found) && members == |devs|
      modifies this
      ensures devs == Filled(found, 0, ndev) && members == |devs|
    {
      hide Dummies, Filled;
      ghost var left := found;
      ghost var done: seq<Entry> := [];
      var i, pos := 0, 0;
      while pos < |devs|
        invariant pos == |done| <= |devs| && members == |devs|
        invariant devs == done + Reals(left)
        invariant done + Filled(left, i, ndev) == Filled(found, 0, ndev)
        decreases |left|
      {
        var idx := devs[pos].index;
        assert idx == left[0];
        FilledStep(left, i, ndev);
        ghost var missing: int := idx;
        ghost var before := Dummies(missing - i);
        Inserted(done, before, Reals(left));
        pos, i := FillUpTo(pos, i, idx);
        RealsStep(left);
        Regroup(done, before, Real(idx), Reals(left[1..]));
        Regroup(done, before, Real(idx), Filled(left[1..], i + 1, ndev));
        done, left := done + before + [Real(idx)], left[1..];
        pos, i := pos + 1, i + 1;
      }
      FilledEnd(i, ndev);
      pos, i := FillUpTo(|devs|, i, ndev);
    }
  }

  lemma Inserted(done: seq<Entry>, before: seq<Entry>, rest: seq<Entry>)
    ensures (done + rest)[..|done|] + before + (done + rest)[|done|..] == done + before + rest
  {
    assert (done + rest)[..|done|] == done && (done + rest)[|done|..] == rest;
  }

  lemma Regroup(done: seq<Entry>, before: seq<Entry>, e: Entry, rest: seq<Entry>)
    ensures done + (before + [e] + rest) == done + before + [e] + rest == done + before + ([e] + rest)
  {
  }

  lemma RealsStep(found: seq<nat>)
    requires found != []
    ensures Reals(found) == [Real(found[0])] + Reals(found[1..])
  {
  }

  lemma FilledEnd(i: nat, ndev: nat)
    ensures Filled([], i, ndev) == Dummies(ndev - i)
  {
  }

  // Every drive sits in its own slot.
  predicate InPlace(r: seq<Entry>, base: nat) {
    forall k :: 0 <= k < |r| ==> r[k].Real? ==> r[k].index == base + k
  }

  predicate Increasing(found: seq<nat>, from: nat, ndev: nat) {
    (forall k :: 0 <= k < |found| ==> from <= found[k] < ndev)
    && forall a, b :: 0 <= a < b < |found| ==> found[a] < found[b]
  }

  lemma IncreasingTail(found: seq<nat>, from: nat, ndev: nat)
    requires found != [] && from <= found[0] < ndev
    ensures Increasing(found, from, ndev) <==> Increasing(found[1..], found[0] + 1, ndev)
  {
    var rest := found[1..];
    assert forall k :: 0 <= k < |rest| ==> rest[k] == found[k + 1];
    assert forall k :: 1 <= k < |found| ==> found[k] == rest[k - 1];
  }

  lemma {:induction false} IncreasingFills(found: seq<nat>, i: nat, ndev: nat)
    requires i <= ndev && Increasing(found, i, ndev)
    ensures InPlace(Filled(found, i, ndev), i) && |Filled(found, i, ndev)| == ndev - i
  {
    hide Dummies, Filled, Increasing, InPlace;
    if found == [] {
      FilledEnd(i, ndev);
      DummiesInPlace(ndev - i, i);
    } else {
      FirstOf(found, i, ndev);
      IncreasingTail(found, i, ndev);
      IncreasingFills(found[1..], found[0] + 1, ndev);
      Placement(found, i, ndev);
    }
  }

  lemma DummiesInPlace(n: int, base: nat)
    ensures InPlace(Dummies(n), base)
  {
  }

  lemma FirstOf(found: seq<nat>, from: nat, ndev: nat)
    requires found != [] && Increasing(found, from, ndev)
    ensures from <= found[0] < ndev
  {
  }

  // The parts of a filled list.
  lemma Placement(found: seq<nat>, i: nat, ndev: nat)
    requires found != [] && found[0] >= i
    ensures var r, rest := Filled(found, i, ndev), Filled(found[1..], found[0] + 1, ndev);
      && |r| == found[0] - i + 1 + |rest|
      && (InPlace(r, i) <==> InPlace(rest, found[0] + 1))
  {
    hide Filled;
    FilledStep(found, i, ndev);
    var d, rest := Dummies(found[0] - i), Filled(found[1..], found[0] + 1, ndev);
    var r := Filled(found, i, ndev);
    assert forall k :: 0 <= k < |rest| ==> rest[k] == r[|d| + 1 + k];
    assert forall k :: |d| < k < |r| ==> r[k] == rest[k - |d| - 1];
  }

  lemma FilledStep(found: seq<nat>, i: nat, ndev: nat)
    requires found != []
    ensures Filled(found, i, ndev)
         == Dummies(found[0] - i) + [Real(found[0])]
            + Filled(found[1..], (if found[0] > i then found[0] else i) + 1, ndev)
  {
  }

  lemma TooLow(found: seq<nat>, i: nat, ndev: nat)
    requires found != [] && found[0] < i
    ensures !InPlace(Filled(found, i, ndev), i)
  {
    hide Filled;
    FilledStep(found, i, ndev);
    assert Filled(found, i, ndev)[0] == Real(found[0]);
  }

  lemma {:induction false} FillsIncreasing(found: seq<nat>, i: nat, ndev: nat)
    requires i <= ndev && InPlace(Filled(found, i, ndev), i) && |Filled(found, i, ndev)| == ndev - i
    ensures Increasing(found, i, ndev)
  {
    hide Dummies, Filled, InPlace;
    if found != [] {
      if found[0] < i {
        TooLow(found, i, ndev);
      } else {
        Placement(found, i, ndev);
        FillsIncreasing(found[1..], found[0] + 1, ndev);
        IncreasingTail(found, i, ndev);
      }
    }
  }

  /** The filled list has one entry for every slot, each drive in its own, exactly
      when the drives are found with strictly increasing indices below the count.
   */
  lemma SlotsIff(found: seq<nat>, ndev: nat)
    ensures InPlace(Filled(found, 0, ndev), 0) && |Filled(found, 0, ndev)| == ndev <==> Increasing(found, 0, ndev)
  {
    if Increasing(found, 0, ndev) {
      IncreasingFills(found, 0, ndev);
    }
    if InPlace(Filled(found, 0, ndev), 0) && |Filled(found, 0, ndev)| == ndev {
      FillsIncreasing(found, 0, ndev);
    }
  }
}
