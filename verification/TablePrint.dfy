/** Printing tables: p_fmt of lib/misc/misc.c, and the lines that dm_linear and
    dm_raid0 of lib/activate/activate.c print with it.
 */
module TablePrint {
  import opened TableText
  import opened Optional

  // An argument of p_fmt: %d takes D, %s takes S, %u and %U take U.
  datatype Arg = U(u: nat) | S(s: CString) | D(d: int)

  function Signed(d: int): string {
    if d < 0 then "-" + Decimal(0 - d) else Decimal(d)
  }

  // What a conversion prints, or none for an unknown one.
  function Conversion(c: char, args: seq<Arg>): Option<string> {
    if args == [] then None
    else
      match args[0]
      case U(u) => if c == 'u' || c == 'U' then Some(Decimal(u)) else None
      case S(s) => if c == 's' then Some(s) else None
      case D(d) => if c == 'd' then Some(Signed(d)) else None
  }

  function Prepend(s: string, more: Option<string>): Option<string> {
    match more
    case None => None
    case Some(t) => Some(s + t)
  }

  // The meaning of a format, character by character.
  function Format(fmt: string, args: seq<Arg>): Option<string> {
    if fmt == "" then Some("")
    else if fmt[0] != '%' then Prepend([fmt[0]], Format(fmt[1..], args))
    else if |fmt| == 1 then None
    else
      match Conversion(fmt[1], args)
      case None => None
      case Some(s) => Prepend(s, Format(fmt[2..], args[1..]))
  }

  // strchr(fmt, '%'), or the length of the format
  function PlainLength(fmt: string): (n: nat)
    ensures n <= |fmt| && '%' !in fmt[..n] && (n < |fmt| ==> fmt[n] == '%')
  {
    if fmt == "" || fmt[0] == '%' then 0 else 1 + PlainLength(fmt[1..])
  }

  lemma PrependTwice(s: string, t: string, more: Option<string>)
    ensures Prepend(s, Prepend(t, more)) == Prepend(s + t, more)
  {
    if more.Some? {
      assert s + (t + more.value) == s + t + more.value;
    }
  }

  lemma {:induction false} FormatPlain(fmt: string, args: seq<Arg>, n: nat)
    requires n <= |fmt| && '%' !in fmt[..n]
    ensures Format(fmt, args) == Prepend(fmt[..n], Format(fmt[n..], args))
  {
    if n == 0 {
      assert fmt[0..] == fmt;
      assert Format(fmt, args).Some? ==> "" + Format(fmt, args).value == Format(fmt, args).value;
    } else {
      assert fmt[..n][0] == fmt[0];
      assert fmt[1..][..n - 1] == fmt[..n][1..];
      FormatPlain(fmt[1..], args, n - 1);
      assert fmt[1..][n - 1..] == fmt[n..];
      PrependTwice([fmt[0]], fmt[1..][..n - 1], Format(fmt[n..], args));
      assert [fmt[0]] + fmt[1..][..n - 1] == fmt[..n];
    }
  }

  lemma FormatConversion(fmt: string, args: seq<Arg>)
    requires fmt != "" && fmt[0] == '%'
    ensures Format(fmt, args)
         == if |fmt| == 1 || Conversion(fmt[1], args).None? then None
            else Prepend(Conversion(fmt[1], args).value, Format(fmt[2..], args[1..]))
  {
  }

  lemma FormatEnd(args: seq<Arg>)
    ensures Format("", args) == Some("")
  {
  }

  class Buffer {
    var text: string

    constructor ()
      ensures text == ""
    {
      text := "";
    }

    // p_str
    method PStr(s: string)
      modifies this
      ensures text == old(text) + s
    {
      text := text + s;
    }

    // p_fmt works on the parts of the format between the conversions; the string is
    // freed when a conversion is unknown.
    method PFmt(fmt: string, args: seq<Arg>) returns (ok: bool)
      modifies this
      ensures ok == Format(fmt, args).Some?
      ensures text == if ok then old(text) + Format(fmt, args).value else ""
    {
      hide Format, Conversion, Prepend, PlainLength;
      var b, k := 0, 0;
      ghost var done := "";
      PrependNothing(Format(fmt, args));
      assert fmt[0..] == fmt && args[0..] == args;
      while b < |fmt|
        invariant b <= |fmt| && k <= |args|
        invariant Format(fmt, args) == Prepend(done, Format(fmt[b..], args[k..]))
        invariant text == old(text) + done
        decreases |fmt| - b
      {
        var rest := fmt[b..];
        var n := PlainLength(rest);
        FormatPlain(rest, args[k..], n);
        PrependTwice(done, rest[..n], Format(rest[n..], args[k..]));
        PStr(rest[..n]);
        done := done + rest[..n];
        b := b + n;
        assert rest[n..] == fmt[b..];
        if b < |fmt| {
          FormatConversion(fmt[b..], args[k..]);
          var c := if b + 1 < |fmt| then Conversion(fmt[b + 1], args[k..]) else None;
          if c.None? {
            PrependToNone(done);
            text := "";
            return false;
          }
          ArgUsed(fmt[b + 1], args[k..]);
          PrependTwice(done, c.value, Format(fmt[b + 2..], args[k + 1..]));
          assert fmt[b..][2..] == fmt[b + 2..] && args[k..][1..] == args[k + 1..];
          PStr(c.value);
          done := done + c.value;
          b, k := b + 2, k + 1;
        }
      }
      FormatEnd(args[k..]);
      assert fmt[b..] == "";
      PrependToEmpty(done);
      return true;
    }
  }

  lemma PrependNothing(more: Option<string>)
    ensures Prepend("", more) == more
  {
    if more.Some? {
      assert "" + more.value == more.value;
    }
  }

  lemma PrependToNone(s: string)
    ensures Prepend(s, None) == None
  {
  }

  lemma PrependToEmpty(s: string)
    ensures Prepend(s, Some("")) == Some(s)
  {
    assert s + "" == s;
  }

  lemma ArgUsed(c: char, args: seq<Arg>)
    requires Conversion(c, args).Some?
    ensures args != []
  {
  }

  // ------------------------------------------------------------------- lines

  // Plain text, then one conversion, then the rest of a format.
  lemma FormatOne(plain: string, c: char, more: string, args: seq<Arg>)
    requires '%' !in plain && args != [] && Conversion(c, args).Some? && Format(more, args[1..]).Some?
    ensures Format(plain + "%" + [c] + more, args)
         == Some(plain + Conversion(c, args).value + Format(more, args[1..]).value)
  {
    hide Conversion;
    var rest := "%" + [c] + more;
    var fmt := plain + "%" + [c] + more;
    assert fmt == plain + rest && fmt[..|plain|] == plain && fmt[|plain|..] == rest;
    FormatPlain(fmt, args, |plain|);
    FormatConversion(rest, args);
    assert rest[2..] == more;
    assert plain + (Conversion(c, args).value + Format(more, args[1..]).value)
        == plain + Conversion(c, args).value + Format(more, args[1..]).value;
  }

  // " %s %U"
  lemma FormatPlace(path: CString, offset: nat)
    ensures Format(" %s %U", [S(path), U(offset)]) == Some(" " + path + " " + Decimal(offset))
  {
    hide Format, Decimal;
    var last := [U(offset)];
    FormatEnd(last[1..]);
    assert Conversion('U', last) == Some(Decimal(offset));
    FormatOne(" ", 'U', "", last);
    var args := [S(path), U(offset)];
    assert args[1..] == last && Conversion('s', args).Some? && Conversion('s', args).value == path;
    assert " " + "%" + ['U'] + "" == " %U";
    FormatOne(" ", 's', " %U", args);
    assert " " + "%" + ['s'] + " %U" == " %s %U";
    assert " " + path + (" " + Decimal(offset) + "") == " " + path + " " + Decimal(offset);
  }

  lemma FormatType(ttype: CString, more: string, args: seq<Arg>)
    requires Format(more, args).Some?
    ensures Format(" %s" + more, [S(ttype)] + args) == Some(" " + ttype + Format(more, args).value)
  {
    hide Format;
    var a := [S(ttype)] + args;
    assert a[1..] == args && Conversion('s', a).Some? && Conversion('s', a).value == ttype;
    FormatOne(" ", 's', more, a);
    assert " " + "%" + ['s'] + more == " %s" + more;
  }

  lemma FormatNumber(plain: string, u: nat, more: string, args: seq<Arg>)
    requires '%' !in plain && Format(more, args).Some?
    ensures Format(plain + "%U" + more, [U(u)] + args) == Some(plain + Decimal(u) + Format(more, args).value)
  {
    hide Format, Decimal;
    var a := [U(u)] + args;
    assert a[1..] == args && Conversion('U', a) == Some(Decimal(u));
    FormatOne(plain, 'U', more, a);
    assert plain + "%" + ['U'] + more == plain + "%U" + more;
  }

  // "%U %U %s" and what follows it
  lemma FormatHead(start: nat, size: nat, ttype: CString, more: string, args: seq<Arg>)
    requires Format(more, args).Some?
    ensures Format("%U %U %s" + more, [U(start), U(size), S(ttype)] + args)
         == Some(Decimal(start) + " " + Decimal(size) + " " + ttype + Format(more, args).value)
  {
    hide Format, Decimal;
    var f3, a3 := " %s" + more, [S(ttype)] + args;
    FormatType(ttype, more, args);
    var f2, a2 := " " + "%U" + f3, [U(size)] + a3;
    FormatNumber(" ", size, f3, a3);
    FormatNumber("", start, f2, a2);
    HeadFormat(more);
    HeadArgs(U(start), U(size), S(ttype), args);
    Regroup(Decimal(start), Decimal(size), ttype, Format(more, args).value);
  }

  lemma HeadFormat(more: string)
    ensures "" + "%U" + (" " + "%U" + (" %s" + more)) == "%U %U %s" + more
  {
    assert "%U" + (" " + "%U" + " %s") == "%U %U %s";
    Regroup("%U", "%U", "%s", more);
    assert " %s" == " " + "%s";
  }

  lemma HeadArgs(a: Arg, b: Arg, c: Arg, args: seq<Arg>)
    ensures [a] + ([b] + ([c] + args)) == [a, b, c] + args
  {
  }

  lemma Regroup(a: string, b: string, c: string, v: string)
    ensures "" + a + (" " + b + (" " + c + v)) == a + " " + b + " " + c + v
  {
  }

  // " %u %u"
  lemma FormatCounts(n: nat, stride: nat)
    ensures Format(" %u %u", [U(n), U(stride)]) == Some(" " + Decimal(n) + " " + Decimal(stride))
  {
    hide Format, Decimal;
    var last := [U(stride)];
    FormatEnd(last[1..]);
    assert Conversion('u', last) == Some(Decimal(stride));
    FormatOne(" ", 'u', "", last);
    var args := [U(n), U(stride)];
    assert args[1..] == last && Conversion('u', args) == Some(Decimal(n));
    assert " " + "%" + ['u'] + "" == " %u";
    FormatOne(" ", 'u', " %u", args);
    assert " " + "%" + ['u'] + " %u" == " %u %u";
    assert " " + Decimal(n) + (" " + Decimal(stride) + "") == " " + Decimal(n) + " " + Decimal(stride);
  }

  // A conversion of the first argument, and the rest of a format.
  lemma FormatNext(plain: string, c: char, arg: Arg, more: string, args: seq<Arg>, value: string)
    requires '%' !in plain && Conversion(c, [arg] + args) == Some(value) && Format(more, args).Some?
    ensures Format(plain + "%" + [c] + more, [arg] + args) == Some(plain + value + Format(more, args).value)
  {
    hide Format, Conversion;
    var all := [arg] + args;
    assert all[1..] == args;
    FormatOne(plain, c, more, all);
  }

  // " %s %u"
  lemma FormatSync(sync: CString, n: nat)
    ensures Format(" %s %u", [S(sync), U(n)]) == Some(" " + sync + (" " + Decimal(n)))
  {
    hide Format, Decimal;
    FormatEnd([]);
    FormatNext(" ", 'u', U(n), "", [], Decimal(n));
    assert " " + "%" + ['u'] + "" == " %u";
    assert " " + Decimal(n) + "" == " " + Decimal(n);
    assert [U(n)] + [] == [U(n)];
    FormatNext(" ", 's', S(sync), " %u", [U(n)], sync);
    assert " " + "%" + ['s'] + " %u" == " %s %u";
    assert [S(sync)] + [U(n)] == [S(sync), U(n)];
  }

  // " core 2 %u" and what follows it
  lemma FormatRegion(region: nat, sync: CString, n: nat)
    ensures Format(" core 2 %u %s %u", [U(region), S(sync), U(n)])
         == Some(" core 2 " + Decimal(region) + (" " + sync + (" " + Decimal(n))))
  {
    hide Format, Decimal;
    FormatSync(sync, n);
    FormatNext(" core 2 ", 'u', U(region), " %s %u", [S(sync), U(n)], Decimal(region));
    assert " core 2 " + "%" + ['u'] + " %s %u" == " core 2 %u %s %u";
    assert [U(region)] + [S(sync), U(n)] == [U(region), S(sync), U(n)];
  }

  // The format of _dm_raid1_bol.
  lemma FormatMirror(size: nat, ttype: CString, region: nat, sync: CString, n: nat)
    ensures Format("0 %U %s core 2 %u %s %u", [U(size), S(ttype), U(region), S(sync), U(n)])
         == Some("0 " + Decimal(size)
                 + (" " + ttype + (" core 2 " + Decimal(region) + (" " + sync + (" " + Decimal(n))))))
  {
    hide Format, Decimal;
    var f, a := " core 2 %u %s %u", [U(region), S(sync), U(n)];
    FormatRegion(region, sync, n);
    FormatNext(" ", 's', S(ttype), f, a, ttype);
    FormatNext("0 ", 'U', U(size), " " + "%" + ['s'] + f, [S(ttype)] + a, Decimal(size));
    MirrorFormat();
    assert [U(size)] + ([S(ttype)] + a) == [U(size), S(ttype), U(region), S(sync), U(n)];
  }

  lemma MirrorFormat()
    ensures "0 " + "%" + ['U'] + (" " + "%" + ['s'] + " core 2 %u %s %u") == "0 %U %s core 2 %u %s %u"
  {
  }

  lemma FormatHandleErrors()
    ensures Format(" 1 handle_errors", []) == Some(" 1 handle_errors")
  {
    hide Format;
    var fmt := " 1 handle_errors";
    assert fmt[..|fmt|] == fmt && fmt[|fmt|..] == "";
    FormatPlain(fmt, [], |fmt|);
    FormatEnd([]);
    PrependToEmpty(fmt);
  }
}
