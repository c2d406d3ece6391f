/** On how many drives the volumes of an image are. The end of a rebuild takes the length of
    a map from the finished volume for both volumes (lib/format/ataraid/isw.c), so they have
    to be on the same number; a second volume is created on as many drives as the disk table
    has entries.
 */
module IswMembers {
  import Bits
  import ByteOrder
  import opened IswLayout
  import opened IswEdits
  import opened IswRuns
  import opened IswRebuild
  import IswAfterRebuild

  // A second volume is added where the table still has one entry for each member.
  predicate AddedFits(x: Isw, e: Edit)
    requires Enabled(x, e)
  {
    e.AddVolume? ==> Members(x.devs[0]) == |x.disks|
  }

  lemma ParentDevs(x: Isw, e: Edit)
    requires Enabled(x, e)
    ensures DevsOk(x.devs) && Good(x) && |x.devs| >= 1 && |x.devs| <= 2
    ensures Good(Apply(x, e)) && DevsOk(Apply(x, e).devs)
  {
    hide Good, Apply;
    ApplyKeepsGood(x, e);
    GoodIs(x);
    GoodIs(Apply(x, e));
    match e
    case Start(_, _) =>
    case End(_) =>
    case Remove(_) =>
    case AddVolume(_, _) =>
  }

  lemma GoodIs(x: Isw)
    requires Good(x)
    ensures DevsOk(x.devs) && |x.devs| <= 2
  {
    GoodParts(x);
  }

  lemma StartKeepsMembers(x: Isw, f: nat, disk: Octets)
    requires CanStart(x, f) && |disk| == DISK_SIZE
    ensures var y := StartRebuild(x, f, disk);
      && |y.devs| == |x.devs| && |y.disks| == |x.disks| + 1 && DevsOk(x.devs) && DevsOk(y.devs)
      && forall i :: 0 <= i < |y.devs| ==> Members(y.devs[i]) == Members(x.devs[i]) && Rebuilding(y.devs[i])
  {
    hide Good, DevOk, Members, FailedEntry, StartDev, StartRebuild;
    GoodIs(x);
    StartIs(x, f, disk);
    forall i | 0 <= i < |x.devs|
      ensures var d := StartDev(x.devs[i], f, |x.disks|);
        DevOk(d) && Members(d) == Members(x.devs[i]) && Rebuilding(d)
    {
      StartDevIs(x.devs[i], f, |x.disks|);
    }
  }

  lemma EndKeepsMembers(x: Isw, v: nat)
    requires CanEnd(x, v)
    ensures var y := EndRebuild(x, v);
      && DevsOk(x.devs) && DevsOk(y.devs) && |y.devs| == |x.devs| <= 2
      && |y.disks| == (if DropsDisk(y.devs) then |x.disks| - 1 else |x.disks|)
      && !Rebuilding(y.devs[v])
      && (forall i :: 0 <= i < |y.devs| ==> Members(y.devs[i]) == Members(x.devs[i]))
      && (forall i :: 0 <= i < |y.devs| && i != v ==> y.devs[i] == x.devs[i])
  {
    hide Good, DevOk, Members, EndDev, EndRebuild, DropsDisk;
    GoodIs(x);
    EndIs(x, v);
    EndDevIs(x.devs[v]);
  }

  /** Whether all volumes stay on the same number of drives depends on the addition of a
      second volume alone: the source compares with the disk table, not with the volume.
   */
  lemma StepMembersIff(x: Isw, e: Edit)
    requires Enabled(x, e)
    ensures DevsOk(x.devs) && DevsOk(Apply(x, e).devs)
    ensures SameMembers(x.devs) ==> (SameMembers(Apply(x, e).devs) <==> AddedFits(x, e))
  {
    hide Good, DevOk, Members, StartRebuild, EndRebuild, CanStart, CanEnd;
    ParentDevs(x, e);
    match e
    case Start(f, disk) => StartKeepsMembers(x, f, disk);
    case End(v) => EndKeepsMembers(x, v);
    case Remove(keep) => assert RemoveVolume(x, keep).devs == [x.devs[keep]];
    case AddVolume(d, version) =>
      AddedDevs(x, d, version);
      SameOfTwo(x.devs[0], d);
  }

  lemma SameOfTwo(a: Dev, b: Dev)
    requires DevOk(a) && DevOk(b)
    ensures SameMembers([a, b]) <==> Members(a) == Members(b)
  {
    hide DevOk, Members;
    var devs := [a, b];
    assert devs[0] == a && devs[1] == b;
  }

  lemma AddedDevs(x: Isw, d: Dev, version: Octets)
    requires Good(x) && |x.devs| == 1 && DevOk(d) && |version| == VERSION_LENGTH
    ensures CreateSecond(x, d, version).devs == [x.devs[0], d] && CreateSecond(x, d, version).disks == x.disks
  {
    hide Good, Image, DevOk;
    GoodParts(x);
    assert x.devs + [d] == [x.devs[0], d];
  }

  lemma {:induction false} MembersSoFar(q: Request, xs: seq<Isw>, es: seq<Edit>, i: nat)
    requires Run(q, xs, es) && i < |xs|
    requires forall k :: 0 <= k < i ==> AddedFits(xs[k], es[k])
    ensures DevsOk(xs[i].devs) && SameMembers(xs[i].devs)
    decreases i
  {
    hide Good, Enabled, Apply, DevOk, Members, FirstHeader, ChecksumOf, AddedFits;
    RunIsGood(q, xs, es, i);
    GoodIs(xs[i]);
    if i > 0 {
      MembersSoFar(q, xs, es, i - 1);
      StepMembersIff(xs[i - 1], es[i - 1]);
    }
  }

  /** Over every run, the volumes of all images are on the same number of drives exactly when
      each second volume is added while the disk table has one entry for each member.
   */
  lemma MembersOfARunIff(q: Request, xs: seq<Isw>, es: seq<Edit>)
    requires Run(q, xs, es)
    ensures forall i :: 0 <= i < |xs| ==> DevsOk(xs[i].devs)
    ensures (forall i :: 0 <= i < |xs| ==> SameMembers(xs[i].devs))
            <==> forall k :: 0 <= k < |es| ==> AddedFits(xs[k], es[k])
  {
    hide Good, Enabled, Apply, DevOk, Members, CreateFirst, AddedFits, SameMembers, RequestOk;
    forall i | 0 <= i < |xs| ensures DevsOk(xs[i].devs) {
      RunIsGood(q, xs, es, i);
      GoodIs(xs[i]);
    }
    if forall k :: 0 <= k < |es| ==> AddedFits(xs[k], es[k]) {
      forall i | 0 <= i < |xs| ensures SameMembers(xs[i].devs) {
        MembersSoFar(q, xs, es, i);
      }
    }
    if forall i :: 0 <= i < |xs| ==> SameMembers(xs[i].devs) {
      forall k | 0 <= k < |es| ensures AddedFits(xs[k], es[k]) {
        StepMembersIff(xs[k], es[k]);
        assert SameMembers(xs[k].devs) && SameMembers(xs[k + 1].devs);
      }
    }
  }

  // ------------------------------------------------------------- orderly runs

  predicate Rebuilding(d: Dev)
    requires DevOk(d)
  {
    d.head[MIGR_TYPE] != 0
  }

  predicate AnyRebuilding(devs: seq<Dev>)
    requires DevsOk(devs)
  {
    exists i :: 0 <= i < |devs| && Rebuilding(devs[i])
  }

  // Rebuilds start when none is under way and end in index order, a volume is added when none
  // is under way, and what a removal leaves is rebuilt still if anything was.
  predicate Orderly(x: Isw, e: Edit)
    requires DevsOk(x.devs)
  {
    match e
    case Start(_, _) => !AnyRebuilding(x.devs)
    case End(v) =>
      v < |x.devs| && Rebuilding(x.devs[v]) && forall i :: 0 <= i < v ==> !Rebuilding(x.devs[i])
    case Remove(keep) => keep < |x.devs| && (AnyRebuilding(x.devs) ==> Rebuilding(x.devs[keep]))
    case AddVolume(_, _) => !AnyRebuilding(x.devs)
  }

  // One entry for each member, and one for the failed disk while a volume is rebuilt.
  predicate Balanced(x: Isw)
    requires DevsOk(x.devs)
  {
    && (forall i :: 0 <= i < |x.devs| ==> |x.disks| == Members(x.devs[i]) + if AnyRebuilding(x.devs) then 1 else 0)
    && (|x.devs| == 2 && Rebuilding(x.devs[0]) ==> Rebuilding(x.devs[1]))
  }

  lemma BalancedIsSame(x: Isw)
    requires DevsOk(x.devs) && Balanced(x)
    ensures SameMembers(x.devs)
  {
  }

  lemma EndIsBalanced(x: Isw, v: nat)
    requires CanEnd(x, v) && DevsOk(x.devs) && Balanced(x) && Orderly(x, End(v))
    ensures DevsOk(EndRebuild(x, v).devs) && Balanced(EndRebuild(x, v))
  {
    hide Good, DevOk, Members, EndRebuild;
    EndKeepsMembers(x, v);
  }

  lemma StepIsBalanced(x: Isw, e: Edit)
    requires Enabled(x, e) && DevsOk(x.devs) && Balanced(x) && Orderly(x, e)
    ensures DevsOk(Apply(x, e).devs) && Balanced(Apply(x, e)) && AddedFits(x, e)
  {
    hide Good, DevOk, Members, StartRebuild, EndRebuild, CanStart, CanEnd;
    ParentDevs(x, e);
    match e
    case Start(f, disk) => StartKeepsMembers(x, f, disk);
    case End(v) => EndIsBalanced(x, v);
    case Remove(keep) => assert RemoveVolume(x, keep).devs == [x.devs[keep]];
    case AddVolume(d, version) => AddedDevs(x, d, version);
  }

  /** Over every orderly run the disk table has one entry for each member, and one more for
      the failed disk while a volume is rebuilt; so all volumes are on the same drives.
   */
  lemma {:induction false} OrderlyRunIsBalanced(q: Request, xs: seq<Isw>, es: seq<Edit>, i: nat)
    requires Run(q, xs, es) && i < |xs|
    requires forall k :: 0 <= k < |es| ==> DevsOk(xs[k].devs) && Orderly(xs[k], es[k])
    ensures DevsOk(xs[i].devs) && Balanced(xs[i]) && SameMembers(xs[i].devs)
    ensures i < |es| ==> AddedFits(xs[i], es[i])
    decreases i
  {
    hide Good, Enabled, Apply, DevOk, FirstHeader, ChecksumOf, AddedFits, Orderly, Balanced, SameMembers;
    RunIsGood(q, xs, es, i);
    GoodIs(xs[i]);
    if i == 0 {
      FirstIsBalanced(q);
    } else {
      OrderlyRunIsBalanced(q, xs, es, i - 1);
      StepIsBalanced(xs[i - 1], es[i - 1]);
    }
    BalancedIsSame(xs[i]);
    if i < |es| {
      StepIsBalanced(xs[i], es[i]);
    }
  }

  lemma FirstIsBalanced(q: Request)
    requires RequestOk(q)
    ensures var x := CreateFirst(q.disks, q.devs, q.version, q.time); DevsOk(x.devs) && Balanced(x)
  {
    hide Image, FirstHeader, ChecksumOf, DevOk, Members;
  }

  // ----------------------------------------------------------- a disorderly run

  // One more edit of a run.
  lemma Extend(q: Request, xs: seq<Isw>, es: seq<Edit>, e: Edit) returns (ys: seq<Isw>, fs: seq<Edit>)
    requires Run(q, xs, es) && Enabled(xs[|es|], e)
    ensures Run(q, ys, fs) && fs == es + [e] && |ys| == |fs| + 1 && ys[|fs|] == Apply(xs[|es|], e)
    ensures ys[..|xs|] == xs
  {
    hide Enabled, Apply, RequestOk, CreateFirst;
    ys, fs := xs + [Apply(xs[|es|], e)], es + [e];
  }

  // Two volumes on all disks.
  lemma TwoCreated(q: Request, d: Dev) returns (xs: seq<Isw>, es: seq<Edit>)
    requires RequestOk(q) && |q.devs| == 1 && Created(d, |q.disks|)
    ensures Run(q, xs, es) && es == [AddVolume(d, q.version)]
    ensures xs[1].disks == q.disks && xs[1].devs == [q.devs[0], d] && Good(xs[1])
  {
    hide Good, DevOk, Members, FirstHeader, ChecksumOf, Image, Apply;
    var x := CreateFirst(q.disks, q.devs, q.version, q.time);
    FirstIsGood(q);
    assert x.devs == q.devs && x.disks == q.disks;
    xs, es := [x], [];
    xs, es := Extend(q, xs, es, AddVolume(d, q.version));
    AddedDevs(x, d, q.version);
    ApplyKeepsGood(x, AddVolume(d, q.version));
    AppliedAdd(x, d, q.version);
  }

  lemma AppliedAdd(x: Isw, d: Dev, version: Octets)
    requires Enabled(x, AddVolume(d, version))
    ensures Apply(x, AddVolume(d, version)) == CreateSecond(x, d, version)
  {
    hide Good, CreateSecond, Created;
  }

  // The rebuild of both volumes, volume 1 first, as two edits of a run.
  lemma RebuiltOutOfOrder(q: Request, xs0: seq<Isw>, es0: seq<Edit>, f: nat, disk: Octets)
    returns (xs: seq<Isw>, es: seq<Edit>)
    requires Run(q, xs0, es0) && TwoVolumes(xs0[|es0|], f, disk)
    requires DevsOk(xs0[|es0|].devs) && SameMembers(xs0[|es0|].devs)
    ensures Run(q, xs, es) && es == es0 + [Start(f, disk), End(1), End(0)]
    ensures xs[|es|] == Rebuilt(xs0[|es0|], f, disk, 1)
  {
    hide Good, DevOk, Members, StartRebuild, EndRebuild, CanStart, CreateFirst, RequestOk, CanEnd;
    var x := xs0[|es0|];
    FirstEnd(x, f, disk, 1);
    xs, es := Extend(q, xs0, es0, Start(f, disk));
    StepMembersIff(x, Start(f, disk));
    var s := StartRebuild(x, f, disk);
    xs, es := Extend(q, xs, es, End(1));
    StepMembersIff(s, End(1));
    xs, es := Extend(q, xs, es, End(0));
    assert es == es0 + [Start(f, disk), End(1), End(0)];
  }

  lemma RemovedIs(x: Isw)
    requires Good(x) && |x.devs| == 2
    ensures RemoveVolume(x, 0).devs == [x.devs[0]] && RemoveVolume(x, 0).disks == x.disks && Good(RemoveVolume(x, 0))
  {
    hide Good, Image, DevOk, Generation;
    GoodParts(x);
    RemoveKeepsGood(x, 0);
  }

  // A rebuild that finishes out of order shortens the disk table.
  lemma ShortTable(q: Request, d: Dev, f: nat, disk: Octets) returns (xs: seq<Isw>, es: seq<Edit>)
    requires RequestOk(q) && |q.devs| == 1 && |q.disks| < 255 && Created(d, |q.disks|)
    requires f < |q.disks| && |disk| == DISK_SIZE
    ensures Run(q, xs, es) && es == [AddVolume(d, q.version), Start(f, disk), End(1), End(0), Remove(0)]
    ensures var y := xs[|es|];
      && Good(y) && DevsOk(y.devs) && |y.devs| == 1
      && |y.disks| == |q.disks| - 1 && Members(y.devs[0]) == |q.disks|
  {
    hide Good, DevOk, Members, StartRebuild, EndRebuild, CreateFirst, Rebuilt, Settled, RequestOk;
    xs, es := TwoCreated(q, d);
    var x := xs[1];
    CreatedIs(q, d);
    GoodParts(x);
    SameOfTwo(q.devs[0], d);
    xs, es := RebuiltOutOfOrder(q, xs, es, f, disk);
    RebuiltIs(x, f, disk, 1);
    var z := Rebuilt(x, f, disk, 1);
    xs, es := Extend(q, xs, es, Remove(0));
    RemovedIs(z);
  }

  lemma CreatedIs(q: Request, d: Dev)
    requires RequestOk(q) && |q.devs| == 1 && Created(d, |q.disks|)
    ensures DevOk(q.devs[0]) && DevOk(d) && Members(q.devs[0]) == Members(d) == |q.disks|
  {
    hide DevOk, Members;
  }

  /** A run after which the two volumes are on different numbers of drives: a rebuild that
      finishes out of order shortens the disk table, one volume is removed, and the next one
      is created on as many drives as the table then has.
   */
  lemma DisorderlyRun(q: Request, d: Dev, f: nat, disk: Octets, e: Dev) returns (xs: seq<Isw>, es: seq<Edit>)
    requires RequestOk(q) && |q.devs| == 1 && |q.disks| < 255 && Created(d, |q.disks|)
    requires f < |q.disks| && |disk| == DISK_SIZE && Created(e, |q.disks| - 1)
    ensures Run(q, xs, es)
    ensures es == [AddVolume(d, q.version), Start(f, disk), End(1), End(0), Remove(0), AddVolume(e, q.version)]
    ensures var x := xs[|es|];
      && Good(x) && DevsOk(x.devs) && |x.devs| == 2 && |x.disks| == |q.disks| - 1
      && Members(x.devs[0]) == |q.disks| && Members(x.devs[1]) == |q.disks| - 1 && !SameMembers(x.devs)
      && (|q.disks| >= 3 ==> Uneven(x))
  {
    hide Good, DevOk, Members, CreateFirst, RequestOk, CreateSecond;
    xs, es := ShortTable(q, d, f, disk);
    var y := xs[|es|];
    VersionIs(q);
    xs, es := Extend(q, xs, es, AddVolume(e, q.version));
    AddedDevs(y, e, q.version);
    SameOfTwo(y.devs[0], e);
    AddKeepsGood(y, e, q.version);
  }

  lemma VersionIs(q: Request)
    requires RequestOk(q)
    ensures |q.version| == VERSION_LENGTH
  {
  }

  // The order table of the volume on fewer drives ends with a number that is not zero.
  lemma LastOrder(d: Dev, failed: Bits.byte, disks: nat)
    requires DevOk(d) && 2 <= Members(d) == disks < 256
    ensures var e := EncodeDev(EndDev(StartDev(d, failed, disks)));
      |e| >= 4 && e[|e| - 4] == disks - 1
  {
    var m := Members(d);
    var o := OrderTable(m, disks);
    assert o == OrderTable(m - 1, disks) + ByteOrder.Bytes(m - 1, 4);
    assert ByteOrder.Bytes(m - 1, 4)[0] == (m - 1) % 256;
    assert o[|o| - 4] == m - 1;
    var map0 := EndDev(StartDev(d, failed, disks)).maps[0];
    assert map0[|map0| - 4] == o[|o| - 4];
  }

  lemma LastOfImage(y: Isw)
    requires Shaped(y) && |y.devs| == 2
    ensures var e, d := Encode(y), EncodeDev(y.devs[1]);
      |e| >= |d| >= HEAD_SIZE && e[|e| - |d|..] == d
  {
    hide EncodeDev, EncodeDisks, DevOk;
    OneDev(y.devs[1]);
    EncodeDevsConcat([y.devs[0]], [y.devs[1]]);
    assert y.devs == [y.devs[0]] + [y.devs[1]];
  }

  // An image like that at the end of a disorderly run.
  predicate Uneven(x: Isw)
    requires DevsOk(x.devs)
  {
    |x.devs| == 2 && Members(x.devs[1]) == |x.disks| >= 2 && Members(x.devs[0]) == |x.disks| + 1
  }

  lemma UnevenStart(x: Isw, f: nat, disk: Octets)
    requires CanStart(x, f) && |disk| == DISK_SIZE && DevsOk(x.devs) && Uneven(x)
    ensures var s := StartRebuild(x, f, disk);
      && CanEnd(s, 0) && CanEnd(s, 1) && DevsOk(s.devs) && |s.devs| == 2
      && !IswAfterRebuild.CanCopy(s, 0) && IswAfterRebuild.CanCopy(s, 1) && IswAfterRebuild.Missed(s, 1) == 8
      && s.devs[1] == StartDev(x.devs[1], f, |x.disks|)
  {
    hide Good, DevOk, Members, StartRebuild, StartDev, FailedEntry;
    StartIs(x, f, disk);
    StartKeepsMembers(x, f, disk);
    EndIsEnabled(x, f, disk, 0);
    EndIsEnabled(x, f, disk, 1);
    StartDevIs(x.devs[0], f, |x.disks|);
    StartDevIs(x.devs[1], f, |x.disks|);
  }

  /** After such a run a rebuild cannot end: the bytes that the source builds for volume 1
      are not the image, and for volume 0 it writes past the new buffer.
   */
  lemma UnevenEndIsWrong(x: Isw, f: nat, disk: Octets)
    requires CanStart(x, f) && |disk| == DISK_SIZE && DevsOk(x.devs) && Uneven(x)
    ensures var s := StartRebuild(x, f, disk);
      && CanEnd(s, 0) && !IswAfterRebuild.CanCopy(s, 0)
      && CanEnd(s, 1) && IswAfterRebuild.CanCopy(s, 1)
      && Shaped(EndRebuild(s, 1)) && IswAfterRebuild.Built(s, 1) != Encode(EndRebuild(s, 1))
  {
    hide Good, DevOk, Members, StartRebuild, EndRebuild, StartDev, EndDev, EncodeDev, DropsDisk, IswAfterRebuild.Built,
         IswAfterRebuild.CanCopy, IswAfterRebuild.Missed, Encode;
    var s := StartRebuild(x, f, disk);
    UnevenStart(x, f, disk);
    IswAfterRebuild.EndIsRightIff(s, 1);
    EndIs(s, 1);
    var y := EndRebuild(s, 1);
    GoodIsSmall(x);
    LastOrder(x.devs[1], f, |x.disks|);
    LastOfImage(y);
    var e, d := Encode(y), EncodeDev(y.devs[1]);
    assert y.devs[1] == EndDev(StartDev(x.devs[1], f, |x.disks|));
    assert e[|e| - |d|..][|d| - 4] == e[|e| - 4];
  }

  lemma GoodIsSmall(x: Isw)
    requires Good(x)
    ensures |x.disks| < 256
  {
  }
}
