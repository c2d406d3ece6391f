/** handle_table of lib/activate/devmapper.c on the buffer that holds a table: each
    newline is a null character while its line is used, and is then put back.
 */
module TableScan {
  import opened TableText
  import opened Optional

  // The string in a buffer from a position on, up to its null character.
  ghost predicate StringAt(a: array<char>, i: nat, s: string)
    reads a
  {
    i + |s| < a.Length && a[i..i + |s|] == s && a[i + |s|] == '\0' && '\0' !in s
  }

  // The characters of a class from a position on, at most width of them.
  method SpanAt(a: array<char>, i: nat, k: Class, width: nat, ghost s: string) returns (n: nat)
    requires StringAt(a, i, s)
    ensures n == (if Span(s, k) < width then Span(s, k) else width)
  {
    n := 0;
    ghost var m := if Span(s, k) < width then Span(s, k) else width;
    while n < width && a[i + n] != '\0' && Is(a[i + n], k)
      invariant n <= m && i + n < a.Length
    {
      assert a[i + n] == (if n < |s| then s[n] else '\0');
      n := n + 1;
    }
    assert a[i + n] == (if n < |s| then s[n] else '\0');
  }

  // White space in a format
  method SkipAt(a: array<char>, i: nat, ghost s: string) returns (at: nat)
    requires StringAt(a, i, s)
    ensures StringAt(a, at, SkipSpace(s)) && i <= at && at + |SkipSpace(s)| == i + |s|
  {
    hide Span;
    var n := SpanAt(a, i, Space, a.Length, s);
    StringFrom(a, i, s, n);
    at := i + n;
  }

  // The characters of a conversion.
  method WordAt(a: array<char>, i: nat, k: Class, width: nat, ghost s: string) returns (text: string, at: nat)
    requires StringAt(a, i, s)
    ensures var w := if Span(s, k) < width then Span(s, k) else width;
      text == s[..w] && at == i + w && StringAt(a, at, s[w..])
  {
    hide Span, Is;
    var n := SpanAt(a, i, k, width, s);
    StringFrom(a, i, s, n);
    text, at := a[i..i + n], i + n;
  }

  // "%31s"
  method TakeWordAt(a: array<char>, i: nat, ghost s: string) returns (text: string, at: nat)
    requires StringAt(a, i, s)
    ensures text == TakeWord(s, TYPE_SIZE).text
    ensures StringAt(a, at, TakeWord(s, TYPE_SIZE).rest) && i <= at && at + |TakeWord(s, TYPE_SIZE).rest| == i + |s|
  {
    hide Span, SkipSpace, StringAt, Is;
    var from := SkipAt(a, i, s);
    text, at := WordAt(a, from, Word, TYPE_SIZE, SkipSpace(s));
  }

  // A sign before a number.
  method SignAt(a: array<char>, i: nat, ghost s: string) returns (signed: bool, negative: bool)
    requires StringAt(a, i, s)
    ensures signed == Signed(s) && negative == (Signed(s) && s[0] == '-')
  {
    assert a[i] == if s == [] then '\0' else s[0];
    negative := a[i] == '-';
    signed := negative || a[i] == '+';
  }

  // "%llu"
  method TakeNumberAt(a: array<char>, i: nat, ghost s: string) returns (negative: bool, digits: string, at: nat)
    requires StringAt(a, i, s)
    ensures negative == TakeNumber(s).negative && digits == TakeNumber(s).digits
    ensures StringAt(a, at, TakeNumber(s).rest) && i <= at && at + |TakeNumber(s).rest| == i + |s|
  {
    hide Span, SkipSpace, StringAt, Is;
    at := SkipAt(a, i, s);
    ghost var t := SkipSpace(s);
    var signed;
    signed, negative := SignAt(a, at, t);
    if signed {
      StringFrom(a, at, t, 1);
      at, t := at + 1, t[1..];
    }
    LengthIsWidth(a, at, t);
    digits, at := WordAt(a, at, Digit, a.Length, t);
  }

  lemma StringFrom(a: array<char>, i: nat, s: string, n: nat)
    requires StringAt(a, i, s) && n <= |s|
    ensures StringAt(a, i + n, s[n..]) && a[i..i + n] == s[..n]
  {
    assert a[i..i + |s|][n..] == a[i + n..i + |s|];
    assert a[i..i + |s|][..n] == a[i..i + n];
  }

  // sscanf with the format of a table line.
  method ScanAt(a: array<char>, i: nat, ghost s: string)
    returns (ok: bool, start: nat, size: nat, ttype: string, at: nat)
    requires StringAt(a, i, s)
    ensures ok == ScanLine(s).Some?
    ensures ok ==>
      && start == ScanLine(s).value.start && size == ScanLine(s).value.size
      && ttype == ScanLine(s).value.ttype
    ensures ok ==> StringAt(a, at, ScanLine(s).value.rest) && i <= at && at + |ScanLine(s).value.rest| == i + |s|
  {
    hide TakeNumber, TakeWord, StringAt, Is, SkipSpace;
    ok, start, size, ttype, at := false, 0, 0, "", i;
    var minus1, first, b := TakeNumberAt(a, i, s);
    if first == "" {
      return;
    }
    ghost var t := TakeNumber(s).rest;
    var minus2, second, c := TakeNumberAt(a, b, t);
    if second == "" {
      return;
    }
    ghost var u := TakeNumber(t).rest;
    var third, d := TakeWordAt(a, c, u);
    if third == "" {
      return;
    }
    at := SkipAt(a, d, TakeWord(u, TYPE_SIZE).rest);
    ok, start, size, ttype := true, ToU64(minus1, first), ToU64(minus2, second), third;
  }

  lemma LengthIsWidth(a: array<char>, i: nat, s: string)
    requires StringAt(a, i, s)
    ensures |s| <= a.Length
  {
  }

  ghost function CharAt(s: string, n: nat): char {
    if n < |s| then s[n] else '\0'
  }

  // The string that a callee reads.
  method CopyString(a: array<char>, i: nat, ghost s: string) returns (r: string)
    requires StringAt(a, i, s)
    ensures r == s
  {
    var n := 0;
    while a[i + n] != '\0'
      invariant n <= |s| && i + n < a.Length && a[i + n] == CharAt(s, n)
      decreases |s| - n
    {
      n := n + 1;
      assert a[i + n] == CharAt(s, n);
    }
    r := a[i..i + n];
  }

  // strchr for a newline
  method FindNewline(a: array<char>, i: nat, ghost s: string) returns (nl: nat)
    requires StringAt(a, i, s)
    ensures nl == i + LineLength(s)
  {
    nl := i;
    ghost var m := LineLength(s);
    while a[nl] != '\0' && a[nl] != '\n'
      invariant i <= nl <= i + m && nl < a.Length && a[nl] == CharAt(s, nl - i)
      decreases i + |s| - nl
    {
      nl := nl + 1;
      assert a[nl] == CharAt(s, nl - i);
    }
  }

  // The parameters of a line, between the removal of its newline and its return.
  method Params(a: array<char>, i: nat, ghost s: string) returns (params: string, nl: nat, more: bool)
    requires StringAt(a, i, s)
    modifies a
    ensures a[..] == old(a[..])
    ensures params == s[..LineLength(s)] && more == (LineLength(s) < |s|)
    ensures more ==> StringAt(a, nl, s[LineLength(s) + 1..]) && nl == i + LineLength(s) + 1
  {
    hide LineLength, Is;
    nl := FindNewline(a, i, s);
    ghost var n, all := LineLength(s), a[..];
    StringFrom(a, i, s, n);
    more := a[nl] != '\0';
    if more {
      assert a[nl] == s[n];
      a[nl] := '\0';
      assert a[i..nl] == all[i..nl] == s[..n];
    }
    params := CopyString(a, i, s[..n]);
    if more {
      a[nl] := '\n';
      nl := nl + 1;
      assert a[..] == all;
      StringFrom(a, i, s, n + 1);
    }
  }

  // --------------------------------------------------------------- handle_table

  /** What handle_table is given besides the table: the types the kernel knows, if the list
      could be read; whether targets are added to a task or only checked; and the targets
      that the device-mapper library refuses.
   */
  datatype Kernel = Kernel(known: Option<set<string>>, adds: bool, refused: set<Rec>)

  predicate TypeIsValid(ttype: string, kernel: Kernel) {
    kernel.known.Some? ==> ttype in kernel.known.value
  }

  predicate IsAdded(line: Rec, kernel: Kernel) {
    kernel.adds ==> line !in kernel.refused
  }

  // What handle_table answers, and the targets it adds before it stops.
  function Handle(s: CString, kernel: Kernel): (r: (bool, seq<Rec>))
    decreases |s|
  {
    match ReadLine(s)
    case None => (false, [])
    case Some(Read(line, more)) =>
      if !TypeIsValid(line.ttype, kernel) || !IsAdded(line, kernel) then (false, [])
      else
        var target := if kernel.adds then [line] else [];
        match more
        case None => (true, target)
        case Some(m) => var r := Handle(m, kernel); (r.0, target + r.1)
  }

  /** handle_table succeeds on exactly the tables that parse to lines of known types that
      are not refused; a task then has the lines as its targets, and before a failure it
      has got the first ones.
   */
  lemma {:induction false} HandleIsParse(s: CString, kernel: Kernel)
    ensures Handle(s, kernel).0
            <==> Parse(s).Some? && forall k :: 0 <= k < |Parse(s).value| ==>
                   TypeIsValid(Parse(s).value[k].ttype, kernel) && IsAdded(Parse(s).value[k], kernel)
    ensures !kernel.adds ==> Handle(s, kernel).1 == []
    ensures kernel.adds && Parse(s).Some? ==> Handle(s, kernel).1 <= Parse(s).value
    ensures kernel.adds && Handle(s, kernel).0 ==> Handle(s, kernel).1 == Parse(s).value
    decreases |s|
  {
    hide ReadLine, TypeIsValid, IsAdded;
    match ReadLine(s)
    case Some(Read(line, Some(more))) =>
      HandleIsParse(more, kernel);
      if Parse(s).Some? {
        var lines, rest := Parse(s).value, Parse(more).value;
        assert lines[0] == line && forall k :: 0 <= k < |rest| ==> lines[k + 1] == rest[k];
      }
    case Some(Read(line, None)) => assert Parse(s).value[0] == line;
    case None =>
  }

  // A type that the kernel knows, in a target that is not refused.
  predicate Accepted(line: Rec, kernel: Kernel) {
    (kernel.known.None? || line.ttype in kernel.known.value) && !(kernel.adds && line in kernel.refused)
  }

  lemma AcceptedIs(line: Rec, kernel: Kernel)
    ensures Accepted(line, kernel) <==> TypeIsValid(line.ttype, kernel) && IsAdded(line, kernel)
  {
  }

  /** A task gets accepted targets only, and of a table that parses all those before the first
      line that is not accepted.
   */
  lemma {:induction false} HandleStops(s: CString, kernel: Kernel)
    requires kernel.adds
    ensures var added := Handle(s, kernel).1;
      && (forall k :: 0 <= k < |added| ==> Accepted(added[k], kernel))
      && (Parse(s).Some? && !Handle(s, kernel).0 ==>
            |added| < |Parse(s).value| && !Accepted(Parse(s).value[|added|], kernel))
    decreases |s|
  {
    hide ReadLine, TypeIsValid, IsAdded, Accepted;
    match ReadLine(s)
    case Some(Read(line, Some(more))) =>
      AcceptedIs(line, kernel);
      HandleStops(more, kernel);
      var added, rest := Handle(s, kernel).1, Handle(more, kernel).1;
      assert forall k :: 1 <= k < |added| ==> added[k] == rest[k - 1];
    case Some(Read(line, None)) => AcceptedIs(line, kernel);
    case None =>
  }

  // One line: the scan, the check of the type, and the target.
  method HandleLine(a: array<char>, i: nat, kernel: Kernel, ghost s: CString)
    returns (ok: bool, line: Rec, more: bool, nl: nat, ghost left: CString)
    requires StringAt(a, i, s)
    modifies a
    ensures a[..] == old(a[..])
    ensures ok == (ReadLine(s).Some? && TypeIsValid(ReadLine(s).value.line.ttype, kernel)
                   && IsAdded(ReadLine(s).value.line, kernel))
    ensures ok ==> line == ReadLine(s).value.line && more == ReadLine(s).value.more.Some?
    ensures ok && more ==> StringAt(a, nl, left) && left == ReadLine(s).value.more.value
  {
    hide StringAt, ScanLine;
    line, more, nl, left := Rec(0, 0, "", ""), false, 0, "";
    var start, size, ttype, p;
    ok, start, size, ttype, p := ScanAt(a, i, s);
    if !ok {
      return;
    }
    if !TypeIsValid(ttype, kernel) {
      ok := false;
      return;
    }
    ghost var rest := ScanLine(s).value.rest;
    var params;
    params, nl, more := Params(a, p, rest);
    line := Rec(start, size, ttype, params);
    ok := IsAdded(line, kernel);
    left := if more then rest[LineLength(rest) + 1..] else "";
  }

  // The loop over the lines; the table is as before when it ends.
  method HandleTable(a: array<char>, kernel: Kernel, ghost s: CString) returns (ok: bool, added: seq<Rec>)
    requires StringAt(a, 0, s)
    modifies a
    ensures a[..] == old(a[..])
    ensures ok == Handle(s, kernel).0 && added == Handle(s, kernel).1
  {
    hide StringAt, ReadLine;
    added := [];
    var nl := 0;
    ghost var t := s;
    while true
      invariant a[..] == old(a[..]) && StringAt(a, nl, t)
      invariant Handle(t, kernel).0 == Handle(s, kernel).0 && added + Handle(t, kernel).1 == Handle(s, kernel).1
      decreases |t|
    {
      var line, more, next;
      ghost var left;
      ok, line, more, next, left := HandleLine(a, nl, kernel, t);
      if !ok {
        assert added + [] == added;
        return;
      }
      if kernel.adds {
        added := added + [line];
      }
      if !more {
        return;
      }
      nl, t := next, left;
    }
  }
}
