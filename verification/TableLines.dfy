/** The text of the tables of linear sets of disks, stripes and mirrors, and reading it
    back.
 */
module TableLines {
  import opened TableText
  import opened TablePrint
  import opened DmTable
  import opened Optional

  // The device of a component, and where its part of it begins.
  datatype Device = Device(path: CString, offset: nat)

  // Paths are those of device nodes: they are not empty, do not begin with space, and
  // hold no newline.
  predicate PathOk(d: Device) {
    d.path != "" && !Is(d.path[0], Space) && '\n' !in d.path
  }

  predicate DevicesOk(devices: seq<Device>) {
    forall k :: 0 <= k < |devices| ==> PathOk(devices[k])
  }

  function Place(t: Target, devices: seq<Device>): string
    requires t.comp < |devices|
  {
    devices[t.comp].path + " " + Decimal(devices[t.comp].offset + t.offset)
  }

  predicate TargetsOk(targets: seq<Target>, devices: seq<Device>) {
    forall k :: 0 <= k < |targets| ==> targets[k].comp < |devices|
  }

  function Places(targets: seq<Target>, devices: seq<Device>): string
    requires TargetsOk(targets, devices)
  {
    if targets == [] then "" else Places(targets[..|targets| - 1], devices) + " " + Place(targets[|targets| - 1],
      devices)
  }

  // The records that are printed like this: lines of disks, stripes, and the only line of
  // a mirror.
  predicate Printable(r: Record, devices: seq<Device>) {
    && r.start <= MAX64 && r.length <= MAX64
    && match r
       case LinearRec(_, _, to) => to.comp < |devices|
       case StripedRec(_, _, _, targets) => targets != [] && TargetsOk(targets, devices)
       case MirrorRec(start, _, _, _, legs) => start == 0 && TargetsOk(legs, devices)
  }

  function SyncWord(sync: bool): CString {
    if sync then "sync" else "nosync"
  }

  // The parameters of a mirror before its legs.
  function MirrorHead(region: nat, sync: bool, n: nat): string {
    "core 2 " + Decimal(region) + (" " + SyncWord(sync) + (" " + Decimal(n)))
  }

  const HANDLE_ERRORS := " 1 handle_errors"

  function Params(r: Record, devices: seq<Device>): string
    requires Printable(r, devices)
  {
    match r
    case LinearRec(_, _, to) => Place(to, devices)
    case StripedRec(_, _, stride, targets) => Decimal(|targets|) + " " + Decimal(stride) + Places(targets, devices)
    case MirrorRec(_, _, region, sync, legs) =>
      MirrorHead(region, sync, |legs|) + Places(legs, devices) + HANDLE_ERRORS
  }

  lemma DecimalIsClean(n: nat)
    ensures '\0' !in Decimal(n) && '\n' !in Decimal(n) && !Is(Decimal(n)[0], Space)
  {
    var s := Decimal(n);
    assert forall i :: 0 <= i < |s| ==> Is(s[i], Digit);
  }

  lemma PlaceIsClean(t: Target, devices: seq<Device>)
    requires t.comp < |devices| && DevicesOk(devices)
    ensures var s := Place(t, devices); '\0' !in s && '\n' !in s && s != "" && !Is(s[0], Space)
  {
    hide Decimal;
    DecimalIsClean(devices[t.comp].offset + t.offset);
    var d := devices[t.comp];
    assert PathOk(d);
    assert Place(t, devices)[0] == d.path[0];
  }

  lemma {:induction false} PlacesAreClean(targets: seq<Target>, devices: seq<Device>)
    requires TargetsOk(targets, devices) && DevicesOk(devices)
    ensures '\0' !in Places(targets, devices) && '\n' !in Places(targets, devices)
  {
    hide Place, DevicesOk;
    if targets != [] {
      PlacesAreClean(targets[..|targets| - 1], devices);
      PlaceIsClean(targets[|targets| - 1], devices);
    }
  }

  lemma MirrorHeadIsClean(region: nat, sync: bool, n: nat)
    ensures var s := MirrorHead(region, sync, n); '\0' !in s && '\n' !in s && s != "" && s[0] == 'c'
  {
    hide Decimal;
    DecimalIsClean(region);
    DecimalIsClean(n);
  }

  lemma ParamsAreClean(r: Record, devices: seq<Device>)
    requires Printable(r, devices) && DevicesOk(devices)
    ensures var s := Params(r, devices); '\0' !in s && '\n' !in s && s != "" && !Is(s[0], Space)
  {
    hide Place, Places, Decimal, DevicesOk, MirrorHead;
    match r
    case LinearRec(_, _, to) => PlaceIsClean(to, devices);
    case MirrorRec(_, _, region, sync, legs) =>
      MirrorHeadIsClean(region, sync, |legs|);
      PlacesAreClean(legs, devices);
      assert Params(r, devices)[0] == MirrorHead(region, sync, |legs|)[0];
    case StripedRec(_, _, stride, targets) =>
      DecimalIsClean(|targets|);
      DecimalIsClean(stride);
      PlacesAreClean(targets, devices);
      assert Params(r, devices)[0] == Decimal(|targets|)[0];
  }

  const LINEAR: CString := "linear"
  const STRIPED: CString := "striped"
  const MIRROR: CString := "mirror"

  function TypeOf(r: Record): CString {
    match r
    case LinearRec(_, _, _) => LINEAR
    case StripedRec(_, _, _, _) => STRIPED
    case MirrorRec(_, _, _, _, _) => MIRROR
  }

  function ToRec(r: Record, devices: seq<Device>): Rec
    requires Printable(r, devices) && DevicesOk(devices)
  {
    ParamsAreClean(r, devices);
    Rec(r.start, r.length, TypeOf(r), Params(r, devices))
  }

  predicate AllPrintable(table: seq<Record>, devices: seq<Device>) {
    forall k :: 0 <= k < |table| ==> Printable(table[k], devices)
  }

  function ToRecs(table: seq<Record>, devices: seq<Device>): (recs: seq<Rec>)
    requires AllPrintable(table, devices) && DevicesOk(devices)
    ensures |recs| == |table| && forall k :: 0 <= k < |table| ==> recs[k] == ToRec(table[k], devices)
  {
    seq(|table|, k requires 0 <= k < |table| => ToRec(table[k], devices))
  }

  lemma RecIsClean(r: Record, devices: seq<Device>, last: bool)
    requires Printable(r, devices) && DevicesOk(devices)
    ensures Clean(ToRec(r, devices), last)
  {
    hide Params, DevicesOk;
    ParamsAreClean(r, devices);
  }

  /** The text that is printed for a table of linear, striped and mirror lines parses back to
      the starts, lengths, types and parameters that were printed.
   */
  lemma PrintedTableParses(table: seq<Record>, devices: seq<Device>)
    requires table != [] && AllPrintable(table, devices) && DevicesOk(devices)
    ensures '\0' !in Text(ToRecs(table, devices))
    ensures Parse(Text(ToRecs(table, devices))) == Some(ToRecs(table, devices))
  {
    hide Parse, Text, Clean, DevicesOk, Printable, ToRec;
    var recs := ToRecs(table, devices);
    forall k | 0 <= k < |recs| ensures Clean(recs[k], k == |recs| - 1) {
      RecIsClean(table[k], devices, k == |recs| - 1);
    }
    RoundTripIff(recs);
  }

  // ---------------------------------------------------------------- printing

  // _dm_path_offset
  method PrintPlace(b: Buffer, t: Target, devices: seq<Device>)
    requires t.comp < |devices|
    modifies b
    ensures b.text == old(b.text) + " " + Place(t, devices)
  {
    hide Format, Decimal;
    var d := devices[t.comp];
    FormatPlace(d.path, d.offset + t.offset);
    PlaceParts(b.text, d.path, Decimal(d.offset + t.offset));
    var ok := b.PFmt(" %s %U", [S(d.path), U(d.offset + t.offset)]);
  }

  lemma PlaceParts(text: string, path: string, n: string)
    ensures text + (" " + path + " " + n) == text + " " + (path + " " + n)
  {
  }

  // _dm_raid0_eol
  method PrintPlaces(b: Buffer, targets: seq<Target>, devices: seq<Device>)
    requires TargetsOk(targets, devices)
    modifies b
    ensures b.text == old(b.text) + Places(targets, devices)
  {
    hide Place;
    for k := 0 to |targets|
      invariant b.text == old(b.text) + Places(targets[..k], devices)
    {
      PrintPlace(b, targets[k], devices);
      assert targets[..k + 1][..k] == targets[..k];
    }
    assert targets[..|targets|] == targets;
  }

  lemma HeadAlone(start: nat, size: nat, ttype: CString)
    ensures Format("%U %U %s", [U(start), U(size), S(ttype)])
      == Some(Decimal(start) + " " + Decimal(size) + " " + ttype)
  {
    hide Format, Decimal;
    FormatEnd([]);
    FormatHead(start, size, ttype, "", []);
    assert "%U %U %s" + "" == "%U %U %s";
    assert [U(start), U(size), S(ttype)] + [] == [U(start), U(size), S(ttype)];
    var h := Decimal(start) + " " + Decimal(size) + " " + ttype;
    assert h + "" == h;
  }

  lemma HeadAndCounts(start: nat, size: nat, ttype: CString, n: nat, stride: nat)
    ensures Format("%U %U %s %u %u", [U(start), U(size), S(ttype), U(n), U(stride)])
         == Some(Decimal(start) + " " + Decimal(size) + " " + ttype + (" " + Decimal(n) + " " + Decimal(stride)))
  {
    hide Format, Decimal;
    FormatCounts(n, stride);
    FormatHead(start, size, ttype, " %u %u", [U(n), U(stride)]);
    CountsFormat();
    CountsArgs(U(start), U(size), S(ttype), U(n), U(stride));
  }

  lemma CountsFormat()
    ensures "%U %U %s" + " %u %u" == "%U %U %s %u %u"
  {
  }

  lemma CountsArgs(a: Arg, b: Arg, c: Arg, d: Arg, e: Arg)
    ensures [a, b, c] + [d, e] == [a, b, c, d, e]
  {
  }

  // One line: _dm_linear, or _dm_raid0_bol and _dm_raid0_eol.
  method PrintRecord(b: Buffer, r: Record, devices: seq<Device>)
    requires Printable(r, devices) && DevicesOk(devices) && !r.MirrorRec?
    modifies b
    ensures b.text == old(b.text) + Line(ToRec(r, devices))
  {
    hide Format, Decimal, Place, Places, DevicesOk;
    ghost var before := b.text;
    match r {
      case LinearRec(start, length, to) =>
        HeadAlone(start, length, LINEAR);
        var ok := b.PFmt("%U %U %s", [U(start), U(length), S(LINEAR)]);
        PrintPlace(b, to, devices);
        Regrouped(before, Decimal(start) + " " + Decimal(length) + " " + LINEAR, Place(to, devices));
      case StripedRec(start, length, stride, targets) =>
        HeadAndCounts(start, length, STRIPED, |targets|, stride);
        var ok := b.PFmt("%U %U %s %u %u", [U(start), U(length), S(STRIPED), U(|targets|), U(stride)]);
        PrintPlaces(b, targets, devices);
        Counted(before, Decimal(start) + " " + Decimal(length) + " " + STRIPED, Decimal(|targets|), Decimal(stride),
          Places(targets, devices));
    }
  }

  lemma Regrouped(a: string, head: string, place: string)
    ensures a + head + " " + place == a + (head + " " + place)
  {
  }

  lemma Counted(a: string, head: string, n: string, stride: string, places: string)
    ensures a + (head + (" " + n + " " + stride)) + places == a + (head + " " + (n + " " + stride + places))
  {
  }

  // _dm_raid1_bol, the legs, and the end of the line in dm_raid1.
  method PrintMirror(b: Buffer, r: Record, devices: seq<Device>)
    requires Printable(r, devices) && DevicesOk(devices) && r.MirrorRec? && b.text == ""
    modifies b
    ensures b.text == Text(ToRecs([r], devices))
  {
    hide Format, Decimal, Place, Places, DevicesOk, MirrorHead;
    var n, sync := |r.legs|, SyncWord(r.sync);
    FormatMirror(r.length, MIRROR, r.region, sync, n);
    var ok := b.PFmt("0 %U %s core 2 %u %s %u", [U(r.length), S(MIRROR), U(r.region), S(sync), U(n)]);
    ghost var head := b.text;
    PrintPlaces(b, r.legs, devices);
    FormatHandleErrors();
    ok := b.PFmt(HANDLE_ERRORS, []);
    MirrorLine(r, devices, head);
  }

  lemma MirrorLine(r: Record, devices: seq<Device>, head: string)
    requires Printable(r, devices) && DevicesOk(devices) && r.MirrorRec?
    requires head == "" + ("0 " + Decimal(r.length)
             + (" " + MIRROR + (" core 2 " + Decimal(r.region) + (" " + SyncWord(r.sync) + (" " + Decimal(|r.legs|))))))
    ensures head + Places(r.legs, devices) + HANDLE_ERRORS == Text(ToRecs([r], devices))
  {
    hide Places, DevicesOk, SyncWord, MirrorHead, Decimal, TargetsOk;
    assert Text(ToRecs([r], devices)) == Line(ToRec(r, devices));
    ZeroIs();
    HeadIs(r.length, r.region, r.sync, |r.legs|);
    ThreeParts("0" + " " + Decimal(r.length) + " " + MIRROR + " ", MirrorHead(r.region, r.sync, |r.legs|),
               Places(r.legs, devices), HANDLE_ERRORS);
  }

  lemma ThreeParts(head: string, a: string, b: string, c: string)
    ensures head + a + b + c == head + (a + b + c)
  {
  }

  lemma ZeroIs()
    ensures Decimal(0) == "0"
  {
  }

  lemma HeadIs(length: nat, region: nat, sync: bool, n: nat)
    ensures "" + ("0 " + Decimal(length)
              + (" " + MIRROR + (" core 2 " + Decimal(region) + (" " + SyncWord(sync) + (" " + Decimal(n))))))
         == "0" + " " + Decimal(length) + " " + MIRROR + " " + MirrorHead(region, sync, n)
  {
    hide Decimal, SyncWord;
    assert " core 2 " == " " + "core 2 ";
    assert "0 " == "0" + " ";
  }

  lemma {:induction false} TextOfMore(recs: seq<Rec>, r: Rec)
    ensures Text(recs + [r]) == if recs == [] then Line(r) else Text(recs) + "\n" + Line(r)
  {
    hide Line;
    if |recs| == 1 {
      assert (recs + [r])[1..] == [r];
    } else if |recs| > 1 {
      assert (recs + [r])[1..] == recs[1..] + [r];
      TextOfMore(recs[1..], r);
      assert Line(recs[0]) + "\n" + (Text(recs[1..]) + "\n" + Line(r))
        == Line(recs[0]) + "\n" + Text(recs[1..]) + "\n" + Line(r);
    }
  }

  // dm_raid0 puts a newline before every line but the first.
  method PrintStripes(b: Buffer, table: seq<Record>, devices: seq<Device>)
    requires AllPrintable(table, devices) && DevicesOk(devices) && b.text == ""
    requires forall k :: 0 <= k < |table| ==> !table[k].MirrorRec?
    modifies b
    ensures b.text == Text(ToRecs(table, devices))
  {
    hide Printable, DevicesOk, ToRec, Line;
    for k := 0 to |table|
      invariant b.text == Text(ToRecs(table, devices)[..k])
    {
      ghost var recs := ToRecs(table, devices);
      assert recs[..k + 1] == recs[..k] + [recs[k]];
      TextOfMore(recs[..k], recs[k]);
      if k > 0 {
        b.PStr("\n");
      }
      PrintRecord(b, table[k], devices);
    }
    assert ToRecs(table, devices)[..|table|] == ToRecs(table, devices);
  }

  // dm_linear puts a newline after every disk but the last.
  method PrintLinear(b: Buffer, table: seq<Record>, devices: seq<Device>)
    requires AllPrintable(table, devices) && DevicesOk(devices) && b.text == ""
    requires forall k :: 0 <= k < |table| ==> !table[k].MirrorRec?
    modifies b
    ensures b.text == Text(ToRecs(table, devices))
  {
    hide Printable, DevicesOk, ToRec, Line;
    for k := 0 to |table|
      invariant b.text == Text(ToRecs(table, devices)[..k]) + if 0 < k < |table| then "\n" else ""
    {
      ghost var recs := ToRecs(table, devices);
      assert recs[..k + 1] == recs[..k] + [recs[k]];
      TextOfMore(recs[..k], recs[k]);
      PrintRecord(b, table[k], devices);
      if k + 1 < |table| {
        b.PStr("\n");
      }
    }
    assert ToRecs(table, devices)[..|table|] == ToRecs(table, devices);
  }
}
