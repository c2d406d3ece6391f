/** Device-mapper tables as text. A line holds a start, a length, a target type and
    parameters; handle_table of lib/activate/devmapper.c reads lines with sscanf.
    Strings are C strings: they hold no null character.
 */
module TableText {
  import opened Optional

  type CString = s: string | '\0' !in s

  // Character classes of the scanner, in the C locale.
  datatype Class = Space | Digit | Word

  predicate Is(c: char, k: Class) {
    match k
    case Space => IsSpace(c)
    case Digit => '0' <= c <= '9'
    case Word => !IsSpace(c)
  }

  // isspace
  predicate IsSpace(c: char) {
    c == ' ' || '\t' <= c <= '\r'
  }

  // How many characters of a class a string begins with.
  function Span(s: string, k: Class): (n: nat)
    ensures n <= |s| && (forall i :: 0 <= i < n ==> Is(s[i], k)) && (n < |s| ==> !Is(s[n], k))
  {
    if s == [] || !Is(s[0], k) then 0 else 1 + Span(s[1..], k)
  }

  function SkipSpace(s: string): (r: string)
    ensures |r| <= |s| && (r != [] ==> !Is(r[0], Space))
  {
    s[Span(s, Space)..]
  }

  const MAX64 := 0xFFFF_FFFF_FFFF_FFFF

  function DigitValue(c: char): nat
    requires Is(c, Digit)
  {
    c as int - '0' as int
  }

  function Value(digits: string): nat
    requires forall i :: 0 <= i < |digits| ==> Is(digits[i], Digit)
  {
    if digits == [] then 0 else 10 * Value(digits[..|digits| - 1]) + DigitValue(digits[|digits| - 1])
  }

  // A line of a table.
  datatype Rec = Rec(start: nat, size: nat, ttype: CString, params: CString)

  const TYPE_SIZE := 31

  // "%31s": space is skipped, and the characters of a word are taken.
  datatype Token = Token(text: string, rest: string)

  function TakeWord(s: string, width: nat): (t: Token)
    ensures |t.text| + |t.rest| <= |s| && |t.text| <= width && forall i :: 0 <= i < |t.text| ==> Is(t.text[i], Word)
    ensures forall c :: c in t.text || c in t.rest ==> c in s
  {
    var a := SkipSpace(s);
    var w := if Span(a, Word) < width then Span(a, Word) else width;
    Token(a[..w], a[w..])
  }

  // "%llu": space is skipped, and a number is taken, which may have a sign.
  datatype Numeral = Numeral(negative: bool, digits: string, rest: string)

  predicate Signed(s: string) {
    s != [] && (s[0] == '+' || s[0] == '-')
  }

  function TakeNumber(s: string): (t: Numeral)
    ensures |t.digits| + |t.rest| <= |s| && forall i :: 0 <= i < |t.digits| ==> Is(t.digits[i], Digit)
    ensures forall c :: c in t.rest ==> c in s
  {
    var a := SkipSpace(s);
    var b := if Signed(a) then a[1..] else a;
    var n := Span(b, Digit);
    Numeral(Signed(a) && a[0] == '-', b[..n], b[n..])
  }

  // The conversion to 64 bits: a number that is too large gives the largest one, and the
  // negative of another is taken modulo 2^64.
  function ToU64(negative: bool, digits: string): (v: nat)
    requires forall i :: 0 <= i < |digits| ==> Is(digits[i], Digit)
    ensures v <= MAX64
  {
    var v := Value(digits);
    if v > MAX64 then MAX64 else if negative && v != 0 then MAX64 + 1 - v else v
  }

  // sscanf with "%llu %llu %31s %n": the numbers, the type, and what follows.
  datatype Scan = Scan(start: nat, size: nat, ttype: string, rest: string)

  function ScanLine(s: string): (r: Option<Scan>)
    ensures r.Some? ==> |r.value.rest| < |s| && forall c :: c in r.value.ttype || c in r.value.rest ==> c in s
  {
    var a := TakeNumber(s);
    if a.digits == "" then None
    else
      var b := TakeNumber(a.rest);
      if b.digits == "" then None
      else
        var c := TakeWord(b.rest, TYPE_SIZE);
        if c.text == "" then None
        else Some(Scan(ToU64(a.negative, a.digits), ToU64(b.negative, b.digits), c.text, SkipSpace(c.rest)))
  }

  // strchr(s, '\n'), or the length of the string
  function LineLength(s: string): (n: nat)
    ensures n <= |s| && '\n' !in s[..n] && (n < |s| ==> s[n] == '\n')
  {
    if s == [] || s[0] == '\n' then 0 else 1 + LineLength(s[1..])
  }

  // A line, and the text behind its newline.
  datatype Read = Read(line: Rec, more: Option<CString>)

  function SplitLine(scan: Scan): (r: Read)
    requires '\0' !in scan.ttype && '\0' !in scan.rest
    ensures r.more.Some? ==> |r.more.value| < |scan.rest|
  {
    var n := LineLength(scan.rest);
    var line := Rec(scan.start, scan.size, scan.ttype, scan.rest[..n]);
    if n == |scan.rest| then Read(line, None)
    else
      var more: CString := scan.rest[n + 1..];
      Read(line, Some(more))
  }

  function ReadLine(s: CString): (r: Option<Read>)
    ensures r.Some? && r.value.more.Some? ==> |r.value.more.value| < |s|
  {
    match ScanLine(s)
    case None => None
    case Some(scan) => Some(SplitLine(scan))
  }

  // The lines that handle_table reads, or none when one of them is malformed.
  function Parse(s: CString): Option<seq<Rec>>
    decreases |s|
  {
    match ReadLine(s)
    case None => None
    case Some(Read(line, None)) => Some([line])
    case Some(Read(line, Some(more))) =>
      match Parse(more)
      case None => None
      case Some(lines) => Some([line] + lines)
  }

  // ---------------------------------------------------------------- printing

  function Decimal(n: nat): (s: string)
    ensures s != [] && forall i :: 0 <= i < |s| ==> Is(s[i], Digit)
  {
    var digit := '0' + (n % 10) as char;
    if n < 10 then [digit] else Decimal(n / 10) + [digit]
  }

  function Line(r: Rec): string {
    Decimal(r.start) + " " + Decimal(r.size) + " " + r.ttype + " " + r.params
  }

  // Lines are separated, not ended, by newlines.
  function Text(recs: seq<Rec>): string {
    if recs == [] then ""
    else if |recs| == 1 then Line(recs[0])
    else Line(recs[0]) + "\n" + Text(recs[1..])
  }

  // ---------------------------------------------------------- the round trip

  predicate AllWord(s: string) {
    forall i :: 0 <= i < |s| ==> Is(s[i], Word)
  }

  // A line that comes back: a type that is one short word, and parameters that do not
  // begin with space and fit on the line; they may be empty on the last line only.
  predicate Clean(r: Rec, last: bool) {
    && r.start <= MAX64 && r.size <= MAX64
    && 1 <= |r.ttype| <= TYPE_SIZE && AllWord(r.ttype)
    && '\n' !in r.params && (r.params == "" ==> last) && (r.params != "" ==> !Is(r.params[0], Space))
  }

  predicate AllClean(recs: seq<Rec>) {
    recs != [] && forall k :: 0 <= k < |recs| ==> Clean(recs[k], k == |recs| - 1)
  }

  lemma {:induction false} SpanAll(s: string, t: string, k: Class)
    requires (forall i :: 0 <= i < |s| ==> Is(s[i], k)) && (t == [] || !Is(t[0], k))
    ensures Span(s + t, k) == |s|
  {
    if s == [] {
      assert s + t == t;
    } else {
      assert (s + t)[1..] == s[1..] + t;
      SpanAll(s[1..], t, k);
    }
  }

  lemma OneSpace(s: string)
    requires s == [] || !Is(s[0], Space)
    ensures SkipSpace(" " + s) == s
  {
    SpanAll(" ", s, Space);
  }

  lemma {:induction false} ValueOfDecimal(n: nat)
    ensures Value(Decimal(n)) == n
  {
    var s := Decimal(n);
    if n >= 10 {
      ValueOfDecimal(n / 10);
      assert s[..|s| - 1] == Decimal(n / 10);
    } else {
      assert s[..0] == [];
    }
  }

  // A number without a sign, then text that begins otherwise.
  lemma TakeDigits(s: string, t: string)
    requires s != "" && (forall i :: 0 <= i < |s| ==> Is(s[i], Digit)) && (t == [] || !Is(t[0], Digit))
    ensures TakeNumber(s + t) == TakeNumber(" " + (s + t)) == Numeral(false, s, t)
  {
    var u := s + t;
    assert u[0] == s[0] && Is(s[0], Digit);
    assert SkipSpace(u) == u;
    OneSpace(u);
    SpanAll(s, t, Digit);
  }

  lemma TakeLetters(s: string, t: string, width: nat)
    requires 0 < |s| <= width && AllWord(s) && (t == [] || !Is(t[0], Word))
    ensures TakeWord(" " + (s + t), width) == Token(s, t)
  {
    assert (s + t)[0] == s[0];
    OneSpace(s + t);
    SpanAll(s, t, Word);
  }

  // Reading a printed line, whatever follows it.
  lemma ScanPrinted(r: Rec, tail: string)
    requires r.start <= MAX64 && r.size <= MAX64 && 1 <= |r.ttype| <= TYPE_SIZE && AllWord(r.ttype)
    ensures ScanLine(Line(r) + tail) == Some(Scan(r.start, r.size, r.ttype, SkipSpace(" " + r.params + tail)))
  {
    hide Span, TakeNumber, TakeWord, Decimal, SkipSpace;
    var s := Line(r) + tail;
    var d := " " + r.params + tail;
    var c := " " + (r.ttype + d);
    var b := " " + (Decimal(r.size) + c);
    assert s == Decimal(r.start) + b;
    TakeDigits(Decimal(r.start), b);
    TakeDigits(Decimal(r.size), c);
    TakeLetters(r.ttype, d, TYPE_SIZE);
    ValueOfDecimal(r.start);
    ValueOfDecimal(r.size);
  }

  lemma {:induction false} TextIsCString(recs: seq<Rec>)
    ensures '\0' !in Text(recs)
  {
    hide Decimal;
    if recs != [] {
      TextIsCString(recs[1..]);
    }
  }

  lemma {:induction false} LineLengthIs(s: string, t: string)
    requires '\n' !in s && (t == [] || t[0] == '\n')
    ensures LineLength(s + t) == |s|
  {
    if s == [] {
      assert s + t == t;
    } else {
      assert (s + t)[1..] == s[1..] + t;
      LineLengthIs(s[1..], t);
    }
  }

  lemma ReadLast(r: Rec)
    requires Clean(r, true) && '\0' !in Line(r)
    ensures ReadLine(Line(r)) == Some(Read(r, None))
  {
    hide SkipSpace, ScanLine, Line;
    assert Line(r) + "" == Line(r);
    ScanPrinted(r, "");
    assert " " + r.params + "" == " " + r.params;
    OneSpace(r.params);
    LineLengthIs(r.params, "");
    assert r.params + "" == r.params;
  }

  lemma ReadFirst(r: Rec, more: CString)
    requires Clean(r, false) && '\0' !in Line(r)
    ensures ReadLine(Line(r) + "\n" + more) == Some(Read(r, Some(more)))
  {
    hide SkipSpace, ScanLine, Line;
    var tail := "\n" + more;
    assert Line(r) + "\n" + more == Line(r) + tail;
    ScanPrinted(r, tail);
    assert " " + r.params + tail == " " + (r.params + tail);
    assert (r.params + tail)[0] == r.params[0];
    OneSpace(r.params + tail);
    LineLengthIs(r.params, tail);
    assert (r.params + tail)[|r.params| + 1..] == more;
    assert (r.params + tail)[..|r.params|] == r.params;
  }

  lemma {:induction false} CleanComesBack(recs: seq<Rec>)
    requires AllClean(recs) && '\0' !in Text(recs)
    ensures Parse(Text(recs)) == Some(recs)
  {
    hide ReadLine, Line;
    assert Clean(recs[0], 0 == |recs| - 1);
    if |recs| == 1 {
      ReadLast(recs[0]);
      assert recs == [recs[0]];
    } else {
      TextIsCString(recs[1..]);
      ReadFirst(recs[0], Text(recs[1..]));
      forall k | 0 <= k < |recs[1..]| ensures Clean(recs[1..][k], k == |recs[1..]| - 1) {
        assert Clean(recs[k + 1], k + 1 == |recs| - 1);
      }
      CleanComesBack(recs[1..]);
      assert recs == [recs[0]] + recs[1..];
    }
  }

  lemma TypeIsWord(s: string)
    requires ScanLine(s).Some?
    ensures 1 <= |ScanLine(s).value.ttype| <= TYPE_SIZE && AllWord(ScanLine(s).value.ttype)
    ensures ScanLine(s).value.start <= MAX64 && ScanLine(s).value.size <= MAX64
  {
  }

  lemma RestIsNoSpace(s: string)
    requires ScanLine(s).Some?
    ensures ScanLine(s).value.rest != [] ==> !Is(ScanLine(s).value.rest[0], Space)
  {
  }

  lemma LineIsClean(s: CString)
    requires ReadLine(s).Some?
    ensures Clean(ReadLine(s).value.line, ReadLine(s).value.more.None?)
  {
    hide ScanLine;
    TypeIsWord(s);
    RestIsNoSpace(s);
  }

  lemma {:induction false} ParsedIsClean(s: CString)
    requires Parse(s).Some?
    ensures AllClean(Parse(s).value)
    decreases |s|
  {
    hide ReadLine, Clean;
    var lines := Parse(s).value;
    LineIsClean(s);
    match ReadLine(s).value
    case Read(line, None) =>
    case Read(line, Some(more)) =>
      ParsedIsClean(more);
      assert forall k :: 1 <= k < |lines| ==> lines[k] == Parse(more).value[k - 1];
  }

  /** Reading a printed table gives back exactly what was printed, for the tables with
      at least one line whose lines are all clean, and for no other tables.
   */
  lemma RoundTripIff(recs: seq<Rec>)
    ensures '\0' !in Text(recs)
    ensures Parse(Text(recs)) == Some(recs) <==> AllClean(recs)
  {
    hide Parse, Text;
    TextIsCString(recs);
    if AllClean(recs) {
      CleanComesBack(recs);
    }
    if Parse(Text(recs)) == Some(recs) {
      ParsedIsClean(Text(recs));
    }
  }
}
