/** What the conversions of the scanner read, and that a printed number is read again:
    sscanf as lib/activate/devmapper.c uses it, and p_fmt of lib/misc/misc.c.
 */
module TableNumbers {
  import opened Optional
  import opened TableText
  import TablePrint

  /** The six characters of white space in the C locale. */
  lemma SpacesAre(c: char)
    ensures Is(c, Space) <==> c in [' ', '\t', '\n', '\U{000B}', '\U{000C}', '\r']
  {
  }

  /** A number has at most one sign, and only a minus makes it negative. */
  lemma SignedNumber(sign: char, digits: string, rest: string)
    requires sign == '+' || sign == '-'
    requires digits != "" && (forall i :: 0 <= i < |digits| ==> Is(digits[i], Digit))
    requires rest == "" || !Is(rest[0], Digit)
    ensures TakeNumber([sign] + (digits + rest)) == Numeral(sign == '-', digits, rest)
  {
    var s := [sign] + (digits + rest);
    NoSpaceBefore(s);
    assert s[1..] == digits + rest;
    SpanAll(digits, rest, Digit);
    assert (digits + rest)[..|digits|] == digits && (digits + rest)[|digits|..] == rest;
  }

  lemma NoSpaceBefore(s: string)
    requires s != "" && !Is(s[0], Space)
    ensures SkipSpace(s) == s
  {
  }

  /** In 64 bits a negative number is what gives zero when the number is added, and a number
      that is too large is the largest one.
   */
  lemma NumberIn64Bits(negative: bool, digits: string)
    requires forall i :: 0 <= i < |digits| ==> Is(digits[i], Digit)
    ensures Value(digits) > 0xFFFF_FFFF_FFFF_FFFF ==> ToU64(negative, digits) == 0xFFFF_FFFF_FFFF_FFFF
    ensures Value(digits) <= 0xFFFF_FFFF_FFFF_FFFF && !negative ==> ToU64(negative, digits) == Value(digits)
    ensures Value(digits) <= 0xFFFF_FFFF_FFFF_FFFF && negative ==>
      (ToU64(negative, digits) + Value(digits)) % 0x1_0000_0000_0000_0000 == 0
  {
  }

  /** A type is cut off behind 31 characters. */
  lemma TypeIsCut(w: string, rest: string)
    requires w != "" && AllWord(w) && (rest == "" || !Is(rest[0], Word))
    ensures TakeWord(w + rest, TYPE_SIZE)
         == if |w| <= 31 then Token(w, rest) else Token(w[..31], w[31..] + rest)
  {
    assert (w + rest)[0] == w[0] && Is(w[0], Word);
    NoSpaceBefore(w + rest);
    SpanAll(w, rest, Word);
    if |w| <= 31 {
      assert (w + rest)[..|w|] == w && (w + rest)[|w|..] == rest;
    } else {
      assert (w + rest)[..31] == w[..31] && (w + rest)[31..] == w[31..] + rest;
    }
  }

  // A number with or without a sign, and white space in front.
  predicate IsNumeral(space: string, sign: string, digits: string) {
    && (forall i :: 0 <= i < |space| ==> Is(space[i], Space)) && sign in ["", "+", "-"]
    && digits != "" && forall i :: 0 <= i < |digits| ==> Is(digits[i], Digit)
  }

  lemma {:induction false} SpaceSkipped(space: string, s: string)
    requires (forall i :: 0 <= i < |space| ==> Is(space[i], Space)) && (s == "" || !Is(s[0], Space))
    ensures SkipSpace(space + s) == s
  {
    SpanAll(space, s, Space);
    assert (space + s)[|space|..] == s;
  }

  lemma NumeralIsTaken(space: string, sign: string, digits: string, rest: string)
    requires IsNumeral(space, sign, digits) && (rest == "" || !Is(rest[0], Digit))
    ensures TakeNumber(space + sign + digits + rest) == Numeral(sign == "-", digits, rest)
  {
    hide TakeNumber, SkipSpace;
    var s := sign + digits + rest;
    assert s[0] == if sign == "" then digits[0] else sign[0];
    SpaceSkipped(space, s);
    assert space + sign + digits + rest == space + s;
    SpaceSkipped("", s);
    assert TakeNumber(space + s) == TakeNumber(s) by { SameNumber(space, s); }
    if sign == "" {
      TakeDigits(digits, rest);
      assert s == digits + rest;
    } else {
      SignedNumber(sign[0], digits, rest);
      assert s == [sign[0]] + (digits + rest);
    }
  }

  lemma SameNumber(space: string, s: string)
    requires SkipSpace(space + s) == s && SkipSpace("" + s) == s
    ensures TakeNumber(space + s) == TakeNumber(s)
  {
    hide SkipSpace, Span;
    assert "" + s == s;
  }

  /** A line as it may be written by hand: two numbers, each with or without a sign and white
      space in front, and a type.
   */
  lemma LineIsScanned(space: seq<string>, sign: seq<string>, digits: seq<string>, ttype: string, rest: string)
    requires |space| == 3 && |sign| == |digits| == 2 && space[2] != "" && space[1] + sign[1] != ""
    requires IsNumeral(space[0], sign[0], digits[0]) && IsNumeral(space[1], sign[1], digits[1])
    requires forall i :: 0 <= i < |space[2]| ==> Is(space[2][i], Space)
    requires 1 <= |ttype| <= 31 && AllWord(ttype) && (rest == "" || !Is(rest[0], Word))
    ensures ScanLine(space[0] + sign[0] + digits[0]
                     + (space[1] + sign[1] + digits[1] + (space[2] + (ttype + rest))))
         == Some(Scan(ToU64(sign[0] == "-", digits[0]), ToU64(sign[1] == "-", digits[1]), ttype, SkipSpace(rest)))
  {
    hide TakeNumber, TakeWord, SkipSpace, ToU64;
    var w := ttype + rest;
    var c := space[2] + w;
    var b := space[1] + sign[1] + digits[1] + c;
    assert w[0] == ttype[0] && c[0] == space[2][0];
    assert b[0] == (if space[1] != "" then space[1][0] else sign[1][0]);
    NumeralIsTaken(space[0], sign[0], digits[0], b);
    NumeralIsTaken(space[1], sign[1], digits[1], c);
    SpaceSkipped(space[2], w);
    SpaceSkipped("", w);
    TypeIsCut(ttype, rest);
    assert TakeWord(c, TYPE_SIZE) == TakeWord(w, TYPE_SIZE) by { SameWord(space[2], w); }
  }

  lemma SameWord(space: string, s: string)
    requires SkipSpace(space + s) == s && SkipSpace("" + s) == s
    ensures TakeWord(space + s, TYPE_SIZE) == TakeWord(s, TYPE_SIZE)
  {
    hide SkipSpace, Span;
    assert "" + s == s;
  }

  /** What %d prints is read as the same number, in 64 bits. */
  lemma PrintedIsRead(d: int, rest: string)
    requires -0xFFFF_FFFF_FFFF_FFFF <= d <= 0xFFFF_FFFF_FFFF_FFFF && (rest == "" || !Is(rest[0], Digit))
    ensures var t := TakeNumber(TablePrint.Signed(d) + rest);
      t.rest == rest && ToU64(t.negative, t.digits) == d % 0x1_0000_0000_0000_0000
  {
    hide Value, Decimal, TakeNumber;
    var n: nat := if d < 0 then 0 - d else d;
    ValueOfDecimal(n);
    if d < 0 {
      assert TablePrint.Signed(d) + rest == ['-'] + (Decimal(n) + rest);
      SignedNumber('-', Decimal(n), rest);
    } else {
      TakeDigits(Decimal(n), rest);
    }
  }
}
