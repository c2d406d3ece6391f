/** What the text of a table means to whoever reads it: the parameters of the "linear",
    "striped" and "mirror" targets are words and numbers, and a sector goes to sectors of
    named devices. The text that is printed for a set means what the set is.
 */
module TableMeaning {
  import opened TableText
  import opened TableLines
  import opened DmTable
  import opened RaidSets
  import opened DmMapping
  import DmStack
  import opened Optional

  // A sector of a device.
  datatype Spot = Spot(path: string, sector: nat)

  datatype Meaning =
    | OneDevice(to: Spot)
    | Stripes(chunk: nat, stripes: seq<Spot>)
    | Copies(region: nat, sync: bool, copies: seq<Spot>, features: seq<string>)

  // ---------------------------------------------------------------- reading

  // The words between spaces.
  function Words(s: string): seq<string>
    decreases |s|
  {
    var a := SkipSpace(s);
    var n := Span(a, Word);
    if n == 0 then [] else [a[..n]] + Words(a[n..])
  }

  predicate AllDigits(w: string) {
    forall i :: 0 <= i < |w| ==> Is(w[i], Digit)
  }

  function Number(w: string): Option<nat> {
    if w != "" && AllDigits(w) then Some(Value(w)) else None
  }

  // A device and a number for each.
  function ReadSpots(ws: seq<string>): Option<seq<Spot>> {
    if ws == [] then Some([])
    else if |ws| == 1 || Number(ws[1]).None? then None
    else
      match ReadSpots(ws[2..])
      case None => None
      case Some(more) => Some([Spot(ws[0], Number(ws[1]).value)] + more)
  }

  function ReadLinear(ws: seq<string>): Option<Meaning> {
    match ReadSpots(ws)
    case None => None
    case Some(to) => if |to| == 1 then Some(OneDevice(to[0])) else None
  }

  // The number of stripes, the chunk size, and the stripes.
  function ReadStriped(ws: seq<string>): Option<Meaning> {
    if |ws| < 2 || Number(ws[1]).None? then None
    else
      match ReadSpots(ws[2..])
      case None => None
      case Some(to) => if Number(ws[0]) == Some(|to|) then Some(Stripes(Number(ws[1]).value, to)) else None
  }

  // The log in core with two arguments, region size and synchronisation; the number of
  // copies; the copies; the number of features and the features.
  function ReadMirror(ws: seq<string>): Option<Meaning> {
    if |ws| < 5 || ws[..2] != ["core", "2"] || Number(ws[2]).None? || Number(ws[4]).None? then None
    else if ws[3] != "sync" && ws[3] != "nosync" then None
    else ReadCopies(Number(ws[2]).value, ws[3] == "sync", Number(ws[4]).value, ws[5..])
  }

  function ReadCopies(region: nat, sync: bool, n: nat, ws: seq<string>): Option<Meaning> {
    if |ws| <= 2 * n || Number(ws[2 * n]) != Some(|ws| - 2 * n - 1) then None
    else
      match ReadSpots(ws[..2 * n])
      case None => None
      case Some(to) => Some(Copies(region, sync, to, ws[2 * n + 1..]))
  }

  function Read(ttype: string, params: string): Option<Meaning> {
    if ttype == "linear" then ReadLinear(Words(params))
    else if ttype == "striped" then ReadStriped(Words(params))
    else if ttype == "mirror" then ReadMirror(Words(params))
    else None
  }

  // ------------------------------------------------------- spaced-out words

  function Spaced(ws: seq<string>): string {
    if ws == [] then "" else " " + ws[0] + Spaced(ws[1..])
  }

  predicate AreWords(ws: seq<string>) {
    forall i :: 0 <= i < |ws| ==> ws[i] != "" && AllWord(ws[i])
  }

  lemma {:induction false} SpacedConcat(a: seq<string>, b: seq<string>)
    ensures Spaced(a + b) == Spaced(a) + Spaced(b)
  {
    if a == [] {
      assert a + b == b;
    } else {
      assert (a + b)[1..] == a[1..] + b;
      SpacedConcat(a[1..], b);
    }
  }

  // The first word of a text, with or without a space before it.
  lemma FirstWord(w: string, more: string)
    requires w != "" && AllWord(w) && (more == "" || more[0] == ' ')
    ensures Words(w + more) == [w] + Words(more) && Words(" " + w + more) == [w] + Words(more)
  {
    hide Words, SkipSpace;
    var s := w + more;
    assert s[0] == w[0] && Is(w[0], Word);
    SpanAll(w, more, Word);
    OneSpace(s);
    assert " " + w + more == " " + s;
    NoSpace(s);
    WordsAre(s, w, more);
    WordsAre(" " + s, w, more);
  }

  lemma NoSpace(s: string)
    requires s == "" || !Is(s[0], Space)
    ensures SkipSpace(s) == s
  {
  }

  lemma WordsAre(s: string, w: string, more: string)
    requires SkipSpace(s) == w + more && w != "" && Span(w + more, Word) == |w|
    ensures Words(s) == [w] + Words(more)
  {
    hide SkipSpace, Span;
    assert (w + more)[..|w|] == w && (w + more)[|w|..] == more;
  }

  lemma NoWords()
    ensures Words("") == []
  {
  }

  lemma {:induction false} WordsOfSpaced(ws: seq<string>)
    requires AreWords(ws)
    ensures Words(Spaced(ws)) == ws
  {
    hide Words, AllWord;
    if ws == [] {
      NoWords();
    } else {
      WordsOfSpaced(ws[1..]);
      FirstWord(ws[0], Spaced(ws[1..]));
    }
  }

  lemma WordsOfLine(w: string, ws: seq<string>)
    requires w != "" && AllWord(w) && AreWords(ws)
    ensures Words(w + Spaced(ws)) == [w] + ws
  {
    hide Words, AllWord;
    WordsOfSpaced(ws);
    FirstWord(w, Spaced(ws));
  }

  lemma DecimalIsWord(n: nat)
    ensures Decimal(n) != "" && AllWord(Decimal(n)) && Number(Decimal(n)) == Some(n)
  {
    hide Decimal, Value;
    ValueOfDecimal(n);
    var s := Decimal(n);
    assert forall i :: 0 <= i < |s| ==> Is(s[i], Digit);
  }

  // ------------------------------------------------------ what was printed

  // The nodes of devices are single words.
  predicate NodesOk(devices: seq<Device>) {
    forall k :: 0 <= k < |devices| ==> devices[k].path != "" && AllWord(devices[k].path)
  }

  lemma NodesAreDevices(devices: seq<Device>)
    requires NodesOk(devices)
    ensures DevicesOk(devices)
  {
    forall k | 0 <= k < |devices| ensures PathOk(devices[k]) {
      assert Is(devices[k].path[0], Word) && !Is('\n', Word);
    }
  }

  // The sector of the device that a target is about.
  function SpotOf(t: Target, devices: seq<Device>): Spot
    requires t.comp < |devices|
  {
    Spot(devices[t.comp].path, devices[t.comp].offset + t.offset)
  }

  function SpotsOf(ts: seq<Target>, devices: seq<Device>): (r: seq<Spot>)
    requires TargetsOk(ts, devices)
    ensures |r| == |ts| && forall k :: 0 <= k < |r| ==> r[k] == SpotOf(ts[k], devices)
  {
    seq(|ts|, k requires 0 <= k < |ts| => SpotOf(ts[k], devices))
  }

  function MeaningOf(r: Record, devices: seq<Device>): Meaning
    requires Printable(r, devices)
  {
    match r
    case LinearRec(_, _, to) => OneDevice(SpotOf(to, devices))
    case StripedRec(_, _, stride, targets) => Stripes(stride, SpotsOf(targets, devices))
    case MirrorRec(_, _, region, sync, legs) => Copies(region, sync, SpotsOf(legs, devices), ["handle_errors"])
  }

  function SpotWords(ts: seq<Target>, devices: seq<Device>): (r: seq<string>)
    requires TargetsOk(ts, devices)
    ensures |r| == 2 * |ts|
  {
    if ts == [] then []
    else [devices[ts[0].comp].path, Decimal(devices[ts[0].comp].offset + ts[0].offset)] + SpotWords(ts[1..], devices)
  }

  lemma {:induction false} SpotWordsAre(ts: seq<Target>, devices: seq<Device>)
    requires TargetsOk(ts, devices) && NodesOk(devices)
    ensures AreWords(SpotWords(ts, devices)) && ReadSpots(SpotWords(ts, devices)) == Some(SpotsOf(ts, devices))
  {
    hide Decimal, AllWord, Number, NodesOk;
    if ts != [] {
      var d := devices[ts[0].comp];
      assert d.path != "" && AllWord(d.path) by { NodeOk(devices, ts[0].comp); }
      DecimalIsWord(d.offset + ts[0].offset);
      SpotWordsAre(ts[1..], devices);
      var w := SpotWords(ts, devices);
      assert w[2..] == SpotWords(ts[1..], devices);
      assert SpotsOf(ts, devices) == [SpotOf(ts[0], devices)] + SpotsOf(ts[1..], devices);
    }
  }

  lemma NodeOk(devices: seq<Device>, k: nat)
    requires NodesOk(devices) && k < |devices|
    ensures devices[k].path != "" && AllWord(devices[k].path)
  {
  }

  lemma {:induction false} PlacesAreSpaced(ts: seq<Target>, devices: seq<Device>)
    requires TargetsOk(ts, devices)
    ensures Places(ts, devices) == Spaced(SpotWords(ts, devices))
  {
    hide Decimal;
    if ts != [] {
      var n := |ts| - 1;
      var last, d := ts[n], devices[ts[n].comp];
      PlacesAreSpaced(ts[..n], devices);
      SpotWordsMore(ts[..n], last, devices);
      assert ts == ts[..n] + [last];
      var pair := [d.path, Decimal(d.offset + last.offset)];
      SpacedConcat(SpotWords(ts[..n], devices), pair);
      SpacedPair(d.path, Decimal(d.offset + last.offset));
      Regroup(Places(ts[..n], devices), Place(last, devices));
    }
  }

  lemma Regroup(a: string, b: string)
    ensures a + " " + b == a + (" " + b)
  {
  }

  lemma SpacedPair(a: string, b: string)
    ensures Spaced([a, b]) == " " + (a + " " + b)
  {
    assert [a, b][1..] == [b] && [b][1..] == [];
    assert Spaced([b]) == " " + b;
  }

  lemma {:induction false} SpotWordsMore(ts: seq<Target>, t: Target, devices: seq<Device>)
    requires TargetsOk(ts, devices) && t.comp < |devices|
    ensures SpotWords(ts + [t], devices)
         == SpotWords(ts, devices) + [devices[t.comp].path, Decimal(devices[t.comp].offset + t.offset)]
  {
    hide Decimal;
    if ts == [] {
      assert ts + [t] == [t];
    } else {
      assert (ts + [t])[1..] == ts[1..] + [t];
      SpotWordsMore(ts[1..], t, devices);
    }
  }

  lemma LinearMeans(to: Target, devices: seq<Device>)
    requires to.comp < |devices| && NodesOk(devices)
    ensures ReadLinear(Words(Place(to, devices))) == Some(OneDevice(SpotOf(to, devices)))
  {
    hide Words, Decimal, AllWord, Number, NodesOk;
    var d := devices[to.comp];
    var n := Decimal(d.offset + to.offset);
    NodeOk(devices, to.comp);
    DecimalIsWord(d.offset + to.offset);
    SpacedOne(n);
    WordsOfLine(d.path, [n]);
    assert d.path + " " + n == d.path + Spaced([n]);
    assert [d.path] + [n] == [d.path, n];
    SpotWordsAre([to], devices);
    assert SpotWords([to], devices) == [d.path, n];
  }

  lemma SpacedOne(w: string)
    ensures Spaced([w]) == " " + w
  {
    assert [w][1..] == [];
  }

  lemma StripedMeans(stride: nat, ts: seq<Target>, devices: seq<Device>)
    requires TargetsOk(ts, devices) && NodesOk(devices)
    ensures ReadStriped(Words(Decimal(|ts|) + " " + Decimal(stride) + Places(ts, devices)))
         == Some(Stripes(stride, SpotsOf(ts, devices)))
  {
    hide Words, Decimal, AllWord, Number, NodesOk, ReadSpots, SpotWords, Places;
    var ws := SpotWords(ts, devices);
    DecimalIsWord(|ts|);
    DecimalIsWord(stride);
    SpotWordsAre(ts, devices);
    PlacesAreSpaced(ts, devices);
    SpacedOne(Decimal(stride));
    SpacedConcat([Decimal(stride)], ws);
    WordsOfLine(Decimal(|ts|), [Decimal(stride)] + ws);
    assert Decimal(|ts|) + " " + Decimal(stride) + Spaced(ws)
        == Decimal(|ts|) + (" " + Decimal(stride) + Spaced(ws));
    var all := [Decimal(|ts|)] + ([Decimal(stride)] + ws);
    assert all[2..] == ws && all[1] == Decimal(stride);
  }

  // The words of a mirror before its legs, and those behind them.
  function HeadWords(region: nat, sync: bool, n: nat): seq<string> {
    ["2", Decimal(region), SyncWord(sync), Decimal(n)]
  }

  const TAIL_WORDS: seq<string> := ["1", "handle_errors"]

  lemma Literals()
    ensures AllWord("core") && AllWord("2") && AllWord("sync") && AllWord("nosync")
    ensures AreWords(TAIL_WORDS) && Number("1") == Some(1)
    ensures Spaced(TAIL_WORDS) == HANDLE_ERRORS
  {
    hide Decimal, Value, Number;
    DecimalIsWord(1);
    OneIs();
    SpacedPair("1", "handle_errors");
    assert " " + ("1" + " " + "handle_errors") == HANDLE_ERRORS;
  }

  lemma OneIs()
    ensures Decimal(1) == "1"
  {
  }

  lemma HeadIsSpaced(region: nat, sync: bool, n: nat)
    ensures MirrorHead(region, sync, n) == "core" + Spaced(HeadWords(region, sync, n))
  {
    hide Decimal, SyncWord;
    var a, b, c := Decimal(region), SyncWord(sync), Decimal(n);
    SpacedPair("2", a);
    SpacedPair(b, c);
    SpacedConcat(["2", a], [b, c]);
    assert ["2", a] + [b, c] == HeadWords(region, sync, n);
    assert "core 2 " == "core" + (" " + "2" + " ");
    assert "core" + (" " + "2" + " ") + a + (" " + b + (" " + c))
        == "core" + (" " + ("2" + " " + a) + (" " + (b + " " + c)));
  }

  lemma MirrorText(region: nat, sync: bool, ts: seq<Target>, devices: seq<Device>)
    requires TargetsOk(ts, devices)
    ensures MirrorHead(region, sync, |ts|) + Places(ts, devices) + HANDLE_ERRORS
         == "core" + Spaced(HeadWords(region, sync, |ts|) + SpotWords(ts, devices) + TAIL_WORDS)
  {
    hide Decimal, SyncWord, Places, SpotWords, MirrorHead, HeadWords, Spaced, AreWords;
    var a, b := HeadWords(region, sync, |ts|), SpotWords(ts, devices);
    HeadIsSpaced(region, sync, |ts|);
    PlacesAreSpaced(ts, devices);
    Literals();
    SpacedConcat(a, b);
    SpacedConcat(a + b, TAIL_WORDS);
    assert "core" + Spaced(a) + Spaced(b) + Spaced(TAIL_WORDS) == "core" + (Spaced(a) + Spaced(b) + Spaced(TAIL_WORDS));
  }

  lemma HeadWordsAreWords(region: nat, sync: bool, n: nat)
    ensures AreWords(HeadWords(region, sync, n))
  {
    hide Decimal, AllWord, Number;
    DecimalIsWord(region);
    DecimalIsWord(n);
    Literals();
  }

  lemma CopiesMean(region: nat, sync: bool, ts: seq<Target>, devices: seq<Device>)
    requires TargetsOk(ts, devices) && NodesOk(devices)
    ensures ReadCopies(region, sync, |ts|, SpotWords(ts, devices) + TAIL_WORDS)
         == Some(Copies(region, sync, SpotsOf(ts, devices), ["handle_errors"]))
  {
    hide SpotWords, NodesOk, ReadSpots, Number, AreWords, Spaced;
    SpotWordsAre(ts, devices);
    Literals();
    var ws := SpotWords(ts, devices) + TAIL_WORDS;
    assert ws[..2 * |ts|] == SpotWords(ts, devices) && ws[2 * |ts| + 1..] == ["handle_errors"];
    assert ws[2 * |ts|] == "1";
  }

  lemma MirrorMeans(region: nat, sync: bool, ts: seq<Target>, devices: seq<Device>)
    requires TargetsOk(ts, devices) && NodesOk(devices)
    ensures ReadMirror(Words(MirrorHead(region, sync, |ts|) + Places(ts, devices) + HANDLE_ERRORS))
         == Some(Copies(region, sync, SpotsOf(ts, devices), ["handle_errors"]))
  {
    hide Words, Decimal, AllWord, Number, NodesOk, ReadSpots, SpotWords, Places, MirrorHead, ReadCopies;
    var a, b := HeadWords(region, sync, |ts|), SpotWords(ts, devices);
    MirrorText(region, sync, ts, devices);
    SpotWordsAre(ts, devices);
    HeadWordsAreWords(region, sync, |ts|);
    Literals();
    WordsOfLine("core", a + b + TAIL_WORDS);
    DecimalIsWord(region);
    DecimalIsWord(|ts|);
    CopiesMean(region, sync, ts, devices);
    var all := ["core"] + (a + b + TAIL_WORDS);
    assert all[..2] == ["core", "2"] && all[5..] == b + TAIL_WORDS;
    assert all[2] == a[1] && all[3] == a[2] && all[4] == a[3];
  }

  /** The parameters of a printed line mean what the line is about: the chunk size, the region
      size, whether copies are brought in sync, and for each target the device and the sector
      at which its part of the device begins, behind the offset of the device.
   */
  lemma PrintedMeans(r: Record, devices: seq<Device>)
    requires Printable(r, devices) && NodesOk(devices)
    ensures Read(TypeOf(r), Params(r, devices)) == Some(MeaningOf(r, devices))
  {
    hide Words, Decimal, Places, MirrorHead, ReadLinear, ReadStriped, ReadMirror, NodesOk, Place;
    match r
    case LinearRec(_, _, to) => LinearMeans(to, devices);
    case StripedRec(_, _, stride, targets) => StripedMeans(stride, targets, devices);
    case MirrorRec(_, _, region, sync, legs) => MirrorMeans(region, sync, legs, devices);
  }

  // --------------------------------------------------- where the text sends a sector

  // What a line does with a sector, by its meaning.
  function Sends(m: Meaning, x: nat): (r: seq<Spot>)
    requires m.Stripes? ==> m.chunk > 0 && m.stripes != []
  {
    match m
    case OneDevice(to) => [Spot(to.path, to.sector + x)]
    case Stripes(chunk, to) =>
      StripeInRange(|to|, chunk, x);
      var t := to[StripeComp(|to|, chunk, x)];
      [Spot(t.path, t.sector + StripeSector(|to|, chunk, x))]
    case Copies(_, _, to, _) => seq(|to|, j requires 0 <= j < |to| => Spot(to[j].path, to[j].sector + x))
  }

  lemma StripeInRange(n: nat, chunk: nat, x: nat)
    requires n > 0 && chunk > 0
    ensures StripeComp(n, chunk, x) < n
  {
  }

  // The sectors to which a table of lines sends a sector; none when no line has it or the
  // line cannot be read.
  function Resolve(lines: seq<Rec>, s: nat): Option<seq<Spot>> {
    if lines == [] then None
    else
      var line := lines[|lines| - 1];
      if !(line.start <= s < line.start + line.size) then Resolve(lines[..|lines| - 1], s)
      else
        match Read(line.ttype, line.params)
        case None => None
        case Some(m) =>
          if m.Stripes? && (m.chunk == 0 || m.stripes == []) then None else Some(Sends(m, s - line.start))
  }

  lemma RecordSends(r: Record, devices: seq<Device>, s: nat)
    requires Printable(r, devices) && Mappable(r) && Contains(r, s)
    ensures TargetsOk(MapSector(r, s), devices)
    ensures var m := MeaningOf(r, devices);
      && (m.Stripes? ==> m.chunk > 0 && m.stripes != [])
      && Sends(m, s - r.start) == SpotsOf(MapSector(r, s), devices)
  {
    hide StripeComp, StripeSector;
    match r
    case LinearRec(_, _, _) =>
    case StripedRec(start, _, stride, targets) => StripeInRange(|targets|, stride, s - start);
    case MirrorRec(_, _, _, _, _) =>
  }

  lemma {:induction false} TableSends(table: seq<Record>, devices: seq<Device>, s: nat)
    requires AllPrintable(table, devices) && AllMappable(table) && NodesOk(devices) && DevicesOk(devices)
    ensures TargetsOk(Lookup(table, s), devices)
    ensures Lookup(table, s) != [] ==>
      Resolve(ToRecs(table, devices), s) == Some(SpotsOf(Lookup(table, s), devices))
  {
    hide MapSector, Read, Sends, MeaningOf, Params, NodesOk, DevicesOk, Printable, Mappable;
    if table != [] {
      var n := |table| - 1;
      var r := table[n];
      TableSends(table[..n], devices, s);
      assert ToRecs(table, devices)[..n] == ToRecs(table[..n], devices);
      LineIs(r, devices);
      PrintedMeans(r, devices);
      if Contains(r, s) {
        RecordSends(r, devices, s);
      }
    }
  }

  lemma LineIs(r: Record, devices: seq<Device>)
    requires Printable(r, devices) && DevicesOk(devices)
    ensures var line := ToRec(r, devices);
      line.start == r.start && line.size == r.length && line.ttype == TypeOf(r) && line.params == Params(r, devices)
  {
  }

  // ---------------------------------------------------------- a set over disks

  predicate NamesOk(names: seq<CString>) {
    && (forall k :: 0 <= k < |names| ==> names[k] != "" && AllWord(names[k]))
    && forall i, j :: 0 <= i < j < |names| ==> names[i] != names[j]
  }

  // The disks of a set under the names of their paths.
  function DevicesOf(devs: seq<Disk>, names: seq<CString>): (r: seq<Device>)
    requires forall k :: 0 <= k < |devs| ==> devs[k].path < |names|
    ensures |r| == |devs| && forall k :: 0 <= k < |r| ==> r[k] == Device(names[devs[k].path], devs[k].offset)
  {
    seq(|devs|, k requires 0 <= k < |devs| => Device(names[devs[k].path], devs[k].offset))
  }

  // A set of disks whose table holds numbers of 64 bits.
  ghost predicate Flat(rs: RaidSet, names: seq<CString>) {
    && DmStack.Sane(rs) && rs.sets == [] && NamesOk(names)
    && (forall k :: 0 <= k < |rs.devs| ==> rs.devs[k].path < |names|)
    && Small(Table(rs))
  }

  predicate Small(table: seq<Record>) {
    forall k :: 0 <= k < |table| ==> table[k].start <= MAX64 && table[k].length <= MAX64
  }

  lemma LengthIs(rs: RaidSet)
    requires Bounded(rs)
    ensures Length(rs) == TableLength(Table(rs))
  {
    hide Table;
  }

  lemma {:induction false} LinearIsPrintable(rs: RaidSet, k: nat, devices: seq<Device>)
    requires k <= Count(rs) == |devices| && Small(LinearTable(rs, k))
    ensures AllPrintable(LinearTable(rs, k), devices)
  {
    if k > 0 {
      var t := LinearTable(rs, k);
      assert t[..k - 1] == LinearTable(rs, k - 1);
      assert forall j :: 0 <= j < k - 1 ==> t[..k - 1][j] == t[j];
      LinearIsPrintable(rs, k - 1, devices);
    }
  }

  lemma TableIsPrintable(rs: RaidSet, names: seq<CString>)
    requires Flat(rs, names)
    ensures AllPrintable(Table(rs), DevicesOf(rs.devs, names))
  {
    hide Smallest, SizeOf, NamesOk;
    var devices := DevicesOf(rs.devs, names);
    match rs.kind
    case Linear => LinearIsPrintable(rs, Count(rs), devices);
    case Stripe => StripeLine(rs);
    case Mirror =>
      if Count(rs) == 1 {
        LinearIsPrintable(rs, 1, devices);
      } else {
        SmallestIsPositive(rs);
        LegsAre(rs, rs.sync && rs.drive == 0);
      }
    case Parity =>
  }

  /** The text that is printed for a set of disks, read line by line and word by word, sends
      each sector of the set exactly where the set has it.
   */
  lemma TextSends(rs: RaidSet, names: seq<CString>, s: nat, p: DmStack.Place)
    requires Flat(rs, names) && s < Length(rs) && p.path < |names|
    ensures var devices := DevicesOf(rs.devs, names);
      && AllPrintable(Table(rs), devices) && DevicesOk(devices)
      && '\0' !in Text(ToRecs(Table(rs), devices))
      && var lines := Parse(Text(ToRecs(Table(rs), devices)));
         && lines.Some? && Resolve(lines.value, s).Some?
         && (Spot(names[p.path], p.sector) in Resolve(lines.value, s).value <==> DmStack.Hits(rs, s, p))
  {
    hide Table, Parse, Text, Resolve, Lookup, SizeOf, Length, Mappable;
    var devices := DevicesOf(rs.devs, names);
    DevicesAreNodes(rs.devs, names);
    TableIsPrintable(rs, names);
    LengthIs(rs);
    HasLine(Table(rs), s);
    PrintedTableParses(Table(rs), devices);
    MapSet(rs, s);
    TableSends(Table(rs), devices, s);
    SpotsAreHits(rs, names, s, p);
  }

  lemma HasLine(table: seq<Record>, s: nat)
    requires s < TableLength(table)
    ensures table != []
  {
  }

  lemma DevicesAreNodes(devs: seq<Disk>, names: seq<CString>)
    requires NamesOk(names) && forall k :: 0 <= k < |devs| ==> devs[k].path < |names|
    ensures NodesOk(DevicesOf(devs, names)) && DevicesOk(DevicesOf(devs, names))
  {
    NodesAreDevices(DevicesOf(devs, names));
  }

  lemma {:induction false} SpotsAreHits(rs: RaidSet, names: seq<CString>, s: nat, p: DmStack.Place)
    requires Flat(rs, names) && s < Length(rs) && p.path < |names|
    requires TargetsOk(DmStack.Where(rs, s), DevicesOf(rs.devs, names))
    ensures Spot(names[p.path], p.sector) in SpotsOf(DmStack.Where(rs, s), DevicesOf(rs.devs, names))
            <==> DmStack.Hits(rs, s, p)
  {
    hide Table, Shaped, DmStack.Where;
    var ts, spots := DmStack.Where(rs, s), SpotsOf(DmStack.Where(rs, s), DevicesOf(rs.devs, names));
    forall j | 0 <= j < |ts| ensures spots[j] == Spot(names[p.path], p.sector) <==> DmStack.HitsComp(rs, ts[j], p) {
      var d := rs.devs[ts[j].comp];
      assert spots[j] == Spot(names[d.path], d.offset + ts[j].offset);
    }
  }

  /** The line of a mirror of several disks: as long as the smallest of them, with a region
      size that is a power of two, and brought in sync exactly when the set is not.
   */
  lemma MirrorLineSays(rs: RaidSet, names: seq<CString>)
    requires Flat(rs, names) && rs.kind.Mirror? && Count(rs) > 1
    ensures var devices := DevicesOf(rs.devs, names);
      && AllPrintable(Table(rs), devices) && DevicesOk(devices)
      && '\0' !in Text(ToRecs(Table(rs), devices))
      && var lines := Parse(Text(ToRecs(Table(rs), devices)));
         && lines.Some? && |lines.value| == 1
         && var line := lines.value[0];
            && line.start == 0 && (forall k :: 0 <= k < |rs.devs| ==> line.size <= rs.devs[k].sectors)
            && (exists k :: 0 <= k < |rs.devs| && line.size == rs.devs[k].sectors)
            && match Read(line.ttype, line.params)
               case Some(Copies(region, sync, _, features)) =>
                 sync == rs.sync && features == ["handle_errors"] && IsRegion(line.size, region)
               case _ => false
  {
    hide Parse, Text, IsRegion, GrowRegion, Places, Words, Read, Legs, Smallest;
    var devices := DevicesOf(rs.devs, names);
    DevicesAreNodes(rs.devs, names);
    TableIsPrintable(rs, names);
    SmallestIs(rs, 0);
    SmallestIsPositive(rs);
    var r := Table(rs)[0];
    assert Table(rs) == [r];
    PrintedTableParses(Table(rs), devices);
    LineIs(r, devices);
    PrintedMeans(r, devices);
    RegionSizeIs(r.length);
    SmallestOfDisks(rs);
  }

  lemma SmallestOfDisks(rs: RaidSet)
    requires Bounded(rs) && rs.sets == [] && Smallest(rs, 0) != 0
    requires forall i :: 0 <= i < Count(rs) ==> SizeOf(rs, i) > 0
    ensures forall k :: 0 <= k < |rs.devs| ==> Smallest(rs, 0) <= rs.devs[k].sectors
    ensures exists k :: 0 <= k < |rs.devs| && Smallest(rs, 0) == rs.devs[k].sectors
  {
    hide Smallest;
    SmallestIs(rs, 0);
    forall k | 0 <= k < |rs.devs| ensures Smallest(rs, 0) <= rs.devs[k].sectors {
      assert SizeOf(rs, k) == rs.devs[k].sectors;
    }
    var i :| 0 <= i < Count(rs) && SizeOf(rs, i) == Smallest(rs, 0);
    assert rs.devs[i].sectors == Smallest(rs, 0);
  }
}
