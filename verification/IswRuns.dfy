/** What the edits of an Intel Software RAID image keep, over any run of them,
    and what a whole rebuild does.
 */
module IswRuns {
  import opened ByteOrder
  import opened Buffers
  import opened IswLayout
  import IswChecksum
  import opened IswEdits

  datatype Edit =
    | Start(failed: nat, newDisk: Octets)
    | End(volume: nat)
    | Remove(keep: nat)
    | AddVolume(dev: Dev, version: Octets)

  // A volume as it is created: on all disks of the table, and not being rebuilt.
  predicate Created(d: Dev, disks: nat) {
    DevOk(d) && Members(d) == disks && d.head[MIGR_TYPE] == 0
  }

  // What the source demands before an edit. The start of a rebuild is enabled for more
  // images than fit the two sectors that are allocated (IswRebuild.StartFitsBuffer), and the
  // image is then the intended one. For volumes that differ in their members the end of a
  // rebuild writes past its buffer or cuts the image off (IswAfterRebuild.EndIsRightIff says
  // when that shows), so it is no edit.
  predicate Enabled(x: Isw, e: Edit) {
    match e
    case Start(f, disk) => CanStart(x, f) && |disk| == DISK_SIZE
    case End(v) => CanEnd(x, v) && SameMembers(x.devs)
    case Remove(keep) => Good(x) && |x.devs| == 2 && keep < 2
    case AddVolume(d, version) =>
      Good(x) && |x.devs| == 1 && Created(d, |x.disks|) && |version| == VERSION_LENGTH
  }

  function Apply(x: Isw, e: Edit): Isw
    requires Enabled(x, e)
  {
    match e
    case Start(f, disk) => StartRebuild(x, f, disk)
    case End(v) => EndRebuild(x, v)
    case Remove(keep) => RemoveVolume(x, keep)
    case AddVolume(d, version) => CreateSecond(x, d, version)
  }

  // What _isw_create_first_volume is given; no volume for a spare disk.
  datatype Request = Request(disks: seq<Octets>, devs: seq<Dev>, version: Octets, time: nat)

  predicate RequestOk(q: Request) {
    && DisksOk(q.disks) && DevsOk(q.devs) && |q.disks| < 256 && |q.devs| <= 1 && |q.version| == VERSION_LENGTH
    && (|q.devs| == 1 ==> Created(q.devs[0], |q.disks|))
  }

  // The images of a run of edits that begins with the first volume.
  predicate Run(q: Request, xs: seq<Isw>, es: seq<Edit>) {
    && RequestOk(q) && |xs| == |es| + 1
    && xs[0] == CreateFirst(q.disks, q.devs, q.version, q.time)
    && (forall i :: 0 <= i < |es| ==> Enabled(xs[i], es[i]) && xs[i + 1] == Apply(xs[i], es[i]))
  }

  // The generation counts every edit but the removal of a volume.
  function Ticks(e: Edit): nat {
    if e.Remove? then 0 else 1
  }

  lemma ImageKeepsGeneration(h: Octets, disks: seq<Octets>, devs: seq<Dev>)
    requires Parts(h, disks, devs)
    ensures Part(Image(h, disks, devs).header, GENERATION_NUM, 4) == Part(h, GENERATION_NUM, 4)
  {
    hide Size, IswChecksum.Checksum, Encode, EncodeDevs, EncodeDisks, Bytes;
    CountedOk(h, disks, devs);
    var r := Image(h, disks, devs).header;
    assert forall k :: GENERATION_NUM <= k < GENERATION_NUM + 4 ==> r[k] == Counted(h, disks, devs)[k] == h[k];
  }

  lemma NextGenerationIs(h: Octets)
    requires |h| == IswLayout.HEADER_SIZE
    ensures Number(Part(NextGeneration(h), GENERATION_NUM, 4)) == (Number(Part(h, GENERATION_NUM, 4)) + 1) % B4
  {
    hide Number, Bytes;
    var v := Number(Part(h, GENERATION_NUM, 4)) + 1;
    PartOfSplice(h, GENERATION_NUM, Bytes(v, 4));
    NumberOfLowBytes(v);
  }

  // A field away from the generation.
  lemma PutElsewhere(h: Octets, off: nat, t: Octets)
    requires |h| == IswLayout.HEADER_SIZE && off + |t| <= |h|
    requires off + |t| <= GENERATION_NUM || GENERATION_NUM + 4 <= off
    ensures Part(Splice(h, off, t), GENERATION_NUM, 4) == Part(h, GENERATION_NUM, 4)
  {
  }

  lemma RemoveKeepsGood(x: Isw, keep: nat)
    requires Good(x) && |x.devs| == 2 && keep < 2
    ensures Good(RemoveVolume(x, keep)) && Generation(RemoveVolume(x, keep)) == Generation(x)
  {
    hide Image, Good, Number, DevOk, Downgraded;
    GoodParts(x);
    var d := x.devs[keep];
    assert DevsOk([d]);
    DowngradedKeepsGeneration(x.header, d);
    ImageIsGood(Downgraded(x.header, d), x.disks, [d]);
    ImageKeepsGeneration(Downgraded(x.header, d), x.disks, [d]);
  }

  lemma DowngradedKeepsGeneration(h: Octets, d: Dev)
    requires |h| == IswLayout.HEADER_SIZE && DevOk(d)
    ensures Part(Downgraded(h, d), GENERATION_NUM, 4) == Part(h, GENERATION_NUM, 4)
  {
    hide SetVersion;
    SetVersionKeepsGeneration(h, VERSION_RAID0);
    SetVersionKeepsGeneration(h, VERSION_RAID1);
  }

  lemma SetVersionKeepsGeneration(h: Octets, version: Octets)
    requires |h| == IswLayout.HEADER_SIZE && |version| == VERSION_LENGTH
    ensures Part(SetVersion(h, version), GENERATION_NUM, 4) == Part(h, GENERATION_NUM, 4)
  {
    PutElsewhere(h, VERSION, version);
  }

  lemma GoodParts(x: Isw)
    requires Good(x)
    ensures Parts(x.header, x.disks, x.devs)
  {
  }

  lemma AddKeepsGood(x: Isw, d: Dev, version: Octets)
    requires Good(x) && |x.devs| == 1 && DevOk(d) && |version| == VERSION_LENGTH
    ensures Good(CreateSecond(x, d, version))
    ensures Generation(CreateSecond(x, d, version)) == (Generation(x) + 1) % B4
  {
    hide Image, Good, Number, DevOk, SetVersion, NextGeneration, Bytes, Less;
    GoodParts(x);
    var h := if Less(Part(x.header, VERSION, VERSION_LENGTH), version) then SetVersion(x.header, version) else x.header;
    var g := NextGeneration(h);
    var h1 := Put(g, ATTRIBUTES, MPB_ATTRIB_CHECKSUM_VERIFY, 4);
    var h2 := Put(h1, BBM_LOG_SIZE, 0, 4);
    SetVersionKeepsGeneration(x.header, version);
    NextGenerationIs(h);
    PutElsewhere(g, ATTRIBUTES, Bytes(MPB_ATTRIB_CHECKSUM_VERIFY, 4));
    PutElsewhere(h1, BBM_LOG_SIZE, Bytes(0, 4));
    ImageIsGood(h2, x.disks, x.devs + [d]);
    ImageKeepsGeneration(h2, x.disks, x.devs + [d]);
  }

  lemma StartKeepsGood(x: Isw, f: nat, disk: Octets)
    requires CanStart(x, f) && |disk| == DISK_SIZE
    ensures Good(StartRebuild(x, f, disk))
    ensures Generation(StartRebuild(x, f, disk)) == (Generation(x) + 1) % B4
  {
    hide Image, Good, Number, DevOk, NextGeneration, StartDevs, FailedEntry;
    GoodParts(x);
    var disks, devs := x.disks[f := disk] + [FailedEntry(x.disks[f])], StartDevs(x.devs, f, |x.disks|);
    NextGenerationIs(x.header);
    ImageIsGood(NextGeneration(x.header), disks, devs);
    ImageKeepsGeneration(NextGeneration(x.header), disks, devs);
  }

  // The pieces that the end of a rebuild writes.
  function EndDevs(x: Isw, v: nat): (r: seq<Dev>)
    requires CanEnd(x, v)
    ensures DevsOk(r) && |r| == |x.devs|
  {
    x.devs[v := EndDev(x.devs[v])]
  }

  function EndDisks(x: Isw, v: nat): (r: seq<Octets>)
    requires CanEnd(x, v)
    ensures DisksOk(r) && |r| <= |x.disks|
  {
    if DropsDisk(EndDevs(x, v)) then x.disks[..|x.disks| - 1] else x.disks
  }

  lemma EndKeepsGood(x: Isw, v: nat)
    requires CanEnd(x, v)
    ensures Good(EndRebuild(x, v))
    ensures Generation(EndRebuild(x, v)) == (Generation(x) + 1) % B4
  {
    hide Image, Good, Number, DevOk, NextGeneration, EndDev, DropsDisk, Members;
    GoodParts(x);
    NextGenerationIs(x.header);
    ImageIsGood(NextGeneration(x.header), EndDisks(x, v), EndDevs(x, v));
    ImageKeepsGeneration(NextGeneration(x.header), EndDisks(x, v), EndDevs(x, v));
  }

  /** Every edit of a good image gives a good image, and advances the generation
      by one, in 32 bits, unless it removes a volume.
   */
  lemma {:induction false} ApplyKeepsGood(x: Isw, e: Edit)
    requires Enabled(x, e)
    ensures Good(Apply(x, e))
    ensures Generation(Apply(x, e)) == (Generation(x) + Ticks(e)) % B4
  {
    hide Good, CanStart, CanEnd, DevOk, Generation, StartRebuild, EndRebuild, RemoveVolume, CreateSecond;
    match e
    case Start(f, disk) => StartKeepsGood(x, f, disk);
    case End(v) => EndKeepsGood(x, v);
    case Remove(keep) => RemoveKeepsGood(x, keep); GenerationIs32Bits(x);
    case AddVolume(d, version) => AddKeepsGood(x, d, version);
  }

  lemma GenerationIs32Bits(x: Isw)
    requires Good(x)
    ensures Generation(x) < B4
  {
    Number4(Part(x.header, GENERATION_NUM, 4));
  }

  lemma FirstIsGood(q: Request)
    requires RequestOk(q)
    ensures Good(CreateFirst(q.disks, q.devs, q.version, q.time))
  {
    hide Image, Good, ChecksumOf, FirstHeader, DevOk, Bytes;
    var h := FirstHeader(q.disks, q.devs, q.version);
    FirstHeaderOk(q.disks, q.devs, q.version);
    var family := (ChecksumOf(Isw(h, q.disks, q.devs)) + q.time) % B4;
    ImageIsGood(Put(Put(h, FAMILY_NUM, family, 4), ORIG_FAMILY_NUM, family, 4), q.disks, q.devs);
  }

  lemma {:induction false} RunIsGood(q: Request, xs: seq<Isw>, es: seq<Edit>, i: nat)
    requires Run(q, xs, es) && i < |xs|
    ensures Good(xs[i])
    decreases i
  {
    hide Good, Enabled, Apply, CreateFirst, RequestOk;
    if i == 0 {
      FirstIsGood(q);
    } else {
      ApplyKeepsGood(xs[i - 1], es[i - 1]);
    }
  }

  /** Over every run of edits that begins with a first volume, each image keeps
      its length field at the end of the walk over its volumes, whatever follows
      it on the disk, finds every volume where it was written, and is accepted
      by the reader's checksum.
   */
  lemma EveryImageOfARun(q: Request, xs: seq<Isw>, es: seq<Edit>, i: nat, rest: Octets)
    requires Run(q, xs, es) && i < |xs|
    ensures Good(xs[i])
    ensures Raiddev(Encode(xs[i]) + rest, |xs[i].devs|) == Number(Part(Encode(xs[i]) + rest, MPB_SIZE, 4))
      == |Encode(xs[i])|
    ensures forall v :: 0 <= v < |xs[i].devs| ==>
      var s, o := Encode(xs[i]) + rest, Raiddev(Encode(xs[i]) + rest, v);
      o + DevLength(xs[i].devs[v]) <= |s| && Part(s, o, DevLength(xs[i].devs[v])) == EncodeDev(xs[i].devs[v])
  {
    RunIsGood(q, xs, es, i);
    EveryVolumeIsFound(xs[i], rest);
  }

  lemma EveryVolumeIsFound(x: Isw, rest: Octets)
    requires Good(x)
    ensures Raiddev(Encode(x) + rest, |x.devs|) == Number(Part(Encode(x) + rest, MPB_SIZE, 4)) == |Encode(x)|
    ensures forall v :: 0 <= v < |x.devs| ==>
      var s, o := Encode(x) + rest, Raiddev(Encode(x) + rest, v);
      o + DevLength(x.devs[v]) <= |s| && Part(s, o, DevLength(x.devs[v])) == EncodeDev(x.devs[v])
  {
    hide Raiddev, Number, EncodeDevs, EncodeDisks, EncodeDev, DevOk;
    WalkEndsAtMpbSize(x, rest);
    OkSize(x);
    assert Part(Encode(x) + rest, MPB_SIZE, 4) == Part(Encode(x), MPB_SIZE, 4);
    forall v | 0 <= v < |x.devs|
      ensures var s, o := Encode(x) + rest, Raiddev(Encode(x) + rest, v);
              o + DevLength(x.devs[v]) <= |s| && Part(s, o, DevLength(x.devs[v])) == EncodeDev(x.devs[v])
    {
      VolumeIsFound(x, rest, v);
    }
  }

  lemma VolumeIsFound(x: Isw, rest: Octets, v: nat)
    requires Shaped(x) && v < |x.devs|
    ensures var s, o := Encode(x) + rest, Raiddev(Encode(x) + rest, v);
            o + DevLength(x.devs[v]) <= |s| && Part(s, o, DevLength(x.devs[v])) == EncodeDev(x.devs[v])
  {
    hide Raiddev, Encode, EncodeDev, Before, After, DevOk;
    WalkFinds(x, rest, v);
    CutAt(x, v);
    assert Encode(x) + rest == Before(x, v) + EncodeDev(x.devs[v]) + (After(x, v) + rest);
  }

  // The number of edits that count.
  function TotalTicks(es: seq<Edit>): nat {
    if es == [] then 0 else TotalTicks(es[..|es| - 1]) + Ticks(es[|es| - 1])
  }

  /** The generation of the last image counts the edits since the first one. */
  lemma {:induction false} GenerationOfARun(q: Request, xs: seq<Isw>, es: seq<Edit>)
    requires Run(q, xs, es)
    ensures Good(xs[0]) && Good(xs[|es|])
    ensures Generation(xs[|es|]) == (Generation(xs[0]) + TotalTicks(es)) % B4
    decreases |es|
  {
    hide Good, Enabled, Apply, CreateFirst, RequestOk, Generation;
    RunIsGood(q, xs, es, 0);
    RunIsGood(q, xs, es, |es|);
    if es == [] {
      GenerationIs32Bits(xs[0]);
    } else {
      var n := |es| - 1;
      GenerationOfARun(q, xs[..n + 1], es[..n]);
      ApplyKeepsGood(xs[n], es[n]);
    }
  }
}
