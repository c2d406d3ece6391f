/** Where the volumes of the images of a run lie: the extents that the first maps store,
    when the volumes are those that _isw_create_first_volume and _isw_create_second_volume
    of lib/format/ataraid/isw.c make.
 */
module IswPlaced {
  import opened Buffers
  import opened IswLayout
  import opened IswEdits
  import opened IswRuns
  import IswRebuild
  import IswMembers
  import opened IswCreate
  import opened Optional
  import X = IswExtents

  // What CreateFirstImage promises of its volume, and CreateSecondImage beside another one.
  ghost predicate IsFirst(sectors: seq<nat>, d: Dev)
    requires DevOk(d)
  {
    exists l, stride, size ::
      X.DisksAllowed(l, |sectors|) && X.CreateFirst(sectors, l, stride, size) == Some(ExtentOf(d))
  }

  ghost predicate IsSecond(sectors: seq<nat>, a: Dev, d: Dev)
    requires DevOk(a) && DevOk(d)
  {
    exists l, stride ::
      X.DisksAllowed(l, |sectors|) && X.CreateSecond(sectors, l, stride, ExtentOf(a)) == Some(ExtentOf(d))
  }

  // The volume of an edit, if any, is such a second volume.
  ghost predicate AddsSecond(sectors: seq<nat>, x: Isw, e: Edit)
    requires Enabled(x, e)
  {
    e.AddVolume? ==> IsSecond(sectors, x.devs[0], e.dev)
  }

  function Extents(devs: seq<Dev>): (r: seq<X.Extent>)
    requires DevsOk(devs)
    ensures |r| == |devs| && forall i :: 0 <= i < |r| ==> r[i] == ExtentOf(devs[i])
  {
    seq(|devs|, i requires 0 <= i < |devs| => ExtentOf(devs[i]))
  }

  // The sizes of the member disks from image to image: the smallest one never shrinks. A hot
  // spare is at least as large as the disk it replaces (find_spare); a disk that the user
  // names for a rebuild is not compared, and has to be large enough here.
  predicate Sizes(ss: seq<seq<nat>>) {
    && (forall i :: 0 <= i < |ss| ==> X.Usable(ss[i]))
    && (forall i :: 0 <= i < |ss| - 1 ==> X.Smallest(ss[i]) <= X.Smallest(ss[i + 1]))
  }

  // ------------------------------------------------- what an edit does to extents

  lemma SameFields(a: Dev, b: Dev)
    requires DevOk(a) && DevOk(b) && a.maps[0][..MAP_STATE] == b.maps[0][..MAP_STATE]
    ensures ExtentOf(a) == ExtentOf(b)
  {
    FieldsIn(a.maps[0]);
    FieldsIn(b.maps[0]);
  }

  lemma FieldsIn(m: Octets)
    requires |m| >= MAP_FIXED
    ensures Part(m, 0, 4) == Part(m[..MAP_STATE], 0, 4) && Part(m, 4, 4) == Part(m[..MAP_STATE], 4, 4)
    ensures Part(m, 8, 4) == Part(m[..MAP_STATE], 8, 4) && Part(m, 12, 2) == Part(m[..MAP_STATE], 12, 2)
  {
    SliceOfPrefix(m, MAP_STATE, 0, 4);
    SliceOfPrefix(m, MAP_STATE, 4, 8);
    SliceOfPrefix(m, MAP_STATE, 8, 12);
    SliceOfPrefix(m, MAP_STATE, 12, 14);
  }

  lemma StartKeepsExtent(d: Dev, failed: nat, disks: nat)
    requires DevOk(d) && failed < 256
    ensures ExtentOf(StartDev(d, failed, disks)) == ExtentOf(d)
  {
    hide OrderTable, ExtentOf;
    SameFields(d, StartDev(d, failed, disks));
  }

  lemma EndKeepsExtent(d: Dev)
    requires DevOk(d)
    ensures ExtentOf(EndDev(d)) == ExtentOf(d)
  {
    hide ExtentOf;
    SameFields(d, EndDev(d));
  }

  lemma StartKeepsExtents(x: Isw, f: nat, disk: Octets)
    requires CanStart(x, f) && |disk| == DISK_SIZE
    ensures DevsOk(x.devs) && DevsOk(StartRebuild(x, f, disk).devs)
    ensures Extents(StartRebuild(x, f, disk).devs) == Extents(x.devs)
  {
    hide Good, DevOk, StartRebuild, StartDev, ExtentOf, FailedEntry;
    IswMembers.GoodIs(x);
    IswRebuild.StartIs(x, f, disk);
    forall i | 0 <= i < |x.devs| ensures ExtentOf(StartDev(x.devs[i], f, |x.disks|)) == ExtentOf(x.devs[i]) {
      StartKeepsExtent(x.devs[i], f, |x.disks|);
    }
  }

  lemma EndKeepsExtents(x: Isw, v: nat)
    requires CanEnd(x, v)
    ensures DevsOk(x.devs) && DevsOk(EndRebuild(x, v).devs)
    ensures Extents(EndRebuild(x, v).devs) == Extents(x.devs)
  {
    hide Good, DevOk, EndRebuild, EndDev, ExtentOf, DropsDisk;
    IswMembers.GoodIs(x);
    IswRebuild.EndIs(x, v);
    EndKeepsExtent(x.devs[v]);
  }

  lemma AddIsSound(sectors: seq<nat>, x: Isw, d: Dev, version: Octets)
    requires Enabled(x, AddVolume(d, version)) && X.Usable(sectors)
    requires DevsOk(x.devs) && X.Sound(sectors, Extents(x.devs)) && IsSecond(sectors, x.devs[0], d)
    ensures DevsOk(CreateSecond(x, d, version).devs)
    ensures X.Sound(sectors, Extents(CreateSecond(x, d, version).devs))
  {
    hide Good, DevOk, CreateSecond, ExtentOf, X.CreateSecond, X.DisksAllowed, X.Placed, X.Apart, X.Smallest, X.Usable;
    IswMembers.AddedDevs(x, d, version);
    var a := x.devs[0];
    var l, stride :|
      X.DisksAllowed(l, |sectors|) && X.CreateSecond(sectors, l, stride, ExtentOf(a)) == Some(ExtentOf(d));
    X.SecondVolume(sectors, l, stride, ExtentOf(a));
    X.ApartSwaps(ExtentOf(d), ExtentOf(a));
  }

  lemma StepIsSound(sectors: seq<nat>, x: Isw, e: Edit)
    requires Enabled(x, e) && X.Usable(sectors) && AddsSecond(sectors, x, e)
    requires DevsOk(x.devs) && X.Sound(sectors, Extents(x.devs))
    ensures DevsOk(Apply(x, e).devs) && X.Sound(sectors, Extents(Apply(x, e).devs))
  {
    hide Good, DevOk, StartRebuild, EndRebuild, CreateSecond, ExtentOf, CanStart, CanEnd, X.Placed, X.Apart, X.Smallest,
         X.Usable, IsSecond;
    IswMembers.ParentDevs(x, e);
    match e
    case Start(f, disk) => StartKeepsExtents(x, f, disk);
    case End(v) => EndKeepsExtents(x, v);
    case Remove(keep) => assert RemoveVolume(x, keep).devs == [x.devs[keep]];
    case AddVolume(d, version) => AddIsSound(sectors, x, d, version);
  }

  // Larger members.
  lemma SoundOnLarger(sectors: seq<nat>, larger: seq<nat>, vols: seq<X.Extent>)
    requires sectors != [] && larger != [] && X.Smallest(sectors) <= X.Smallest(larger)
    requires X.Sound(sectors, vols)
    ensures X.Sound(larger, vols)
  {
    hide X.Smallest, X.Apart;
  }

  lemma FirstIsSound(sectors: seq<nat>, devs: seq<Dev>)
    requires X.Usable(sectors) && DevsOk(devs) && |devs| <= 1 && (|devs| == 1 ==> IsFirst(sectors, devs[0]))
    ensures X.Sound(sectors, Extents(devs))
  {
    hide DevOk, ExtentOf, X.CreateFirst, X.Placed, X.Smallest, X.DisksAllowed, X.Usable;
    if |devs| == 1 {
      var l, stride, size :|
        X.DisksAllowed(l, |sectors|) && X.CreateFirst(sectors, l, stride, size) == Some(ExtentOf(devs[0]));
      X.FirstVolume(sectors, l, stride, size);
    }
  }

  /** Over every run of edits whose volumes are placed when they are created, the extents
      that each image stores fit on every member and two of them are MIGR_OPT_SPACE blocks
      apart: no rebuild and no removal moves a volume.
   */
  lemma {:induction false} EveryImageIsSound(q: Request, xs: seq<Isw>, es: seq<Edit>, ss: seq<seq<nat>>, i: nat)
    requires Run(q, xs, es) && |ss| == |xs| && Sizes(ss) && i < |xs|
    requires |q.devs| == 1 ==> IsFirst(ss[0], q.devs[0])
    requires forall k :: 0 <= k < |es| ==> AddsSecond(ss[k], xs[k], es[k])
    ensures DevsOk(xs[i].devs) && X.Sound(ss[i], Extents(xs[i].devs))
    ensures forall v, k :: 0 <= v < |xs[i].devs| && 0 <= k < |ss[i]| ==>
      Extents(xs[i].devs)[v].pba + Extents(xs[i].devs)[v].blocks <= ss[i][k]
    decreases i
  {
    hide Good, Enabled, Apply, DevOk, FirstHeader, ChecksumOf, Image, ExtentOf, IsFirst, AddsSecond, Extents, X.Apart,
         X.Smallest;
    if i == 0 {
      assert xs[0].devs == q.devs;
      FirstIsSound(ss[0], q.devs);
    } else {
      EveryImageIsSound(q, xs, es, ss, i - 1);
      StepIsSound(ss[i - 1], xs[i - 1], es[i - 1]);
      assert X.Smallest(ss[i - 1]) <= X.Smallest(ss[i - 1 + 1]);
      SoundOnLarger(ss[i - 1], ss[i], Extents(xs[i].devs));
    }
  }
}
