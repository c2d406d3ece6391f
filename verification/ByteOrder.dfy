/** Byte order conversion, lib/datastruct/byteorder.h with DM_BYTEORDER_SWAB. */
module ByteOrder {
  import opened Bits

  const B1 := 0x100
  const B2 := 0x1_0000
  const B3 := 0x100_0000
  const B4 := 0x1_0000_0000
  const B5 := 0x100_0000_0000
  const B6 := 0x1_0000_0000_0000
  const B7 := 0x100_0000_0000_0000

  // The masks and shifts of the three conversion functions.
  function Le16ToCpu(x: nat): nat {
    x % B1 * B1 + x / B1 % B1
  }

  function Le32ToCpu(x: nat): nat {
    x % B1 * B3 + x / B1 % B1 * B2 + x / B2 % B1 * B1 + x / B3 % B1
  }

  function Le64ToCpu(x: nat): nat {
    x % B1 * B7 + x / B1 % B1 * B6 + x / B2 % B1 * B5 + x / B3 % B1 * B4
    + x / B4 % B1 * B3 + x / B5 % B1 * B2 + x / B6 % B1 * B1 + x / B7 % B1
  }

  function Reverse<T>(s: seq<T>): (r: seq<T>)
    ensures |r| == |s| && forall i :: 0 <= i < |s| ==> r[i] == s[|s| - 1 - i]
  {
    seq(|s|, i requires 0 <= i < |s| => s[|s| - 1 - i])
  }

  // The number held by bytes of increasing significance.
  function Number(s: seq<byte>): nat {
    if s == [] then 0 else s[0] + B1 * Number(s[1..])
  }

  // The low n bytes of a number; a store into a field of n bytes.
  function Bytes(v: nat, n: nat): (r: seq<byte>)
    ensures |r| == n
  {
    if n == 0 then [] else [v % B1] + Bytes(v / B1, n - 1)
  }

  // Memory order of a field on a little or big endian host.
  function Significance(s: seq<byte>, big: bool): (r: seq<byte>)
    ensures |r| == |s|
  {
    if big then Reverse(s) else s
  }

  function Load(s: seq<byte>, big: bool): nat {
    Number(Significance(s, big))
  }

  function Store(v: nat, n: nat, big: bool): (r: seq<byte>)
    ensures |r| == n
  {
    Significance(Bytes(v, n), big)
  }

  lemma {:induction false} BytesOfNumber(s: seq<byte>)
    ensures Bytes(Number(s), |s|) == s
  {
    if s != [] {
      BytesOfNumber(s[1..]);
      assert Number(s) % B1 == s[0] && Number(s) / B1 == Number(s[1..]);
    }
  }

  lemma {:induction false} NumberOfBytes(v: nat, n: nat)
    requires v < Pow2(8 * n)
    ensures Number(Bytes(v, n)) == v
  {
    if n > 0 {
      assert Pow2(8 * n) == 256 * Pow2(8 * (n - 1)) by {
        var k := 8 * (n - 1);
        assert Pow2(k + 8) == 2 * Pow2(k + 7) == 4 * Pow2(k + 6) == 8 * Pow2(k + 5) == 16 * Pow2(k + 4);
        assert Pow2(k + 4) == 2 * Pow2(k + 3) == 4 * Pow2(k + 2) == 8 * Pow2(k + 1) == 16 * Pow2(k);
      }
      NumberOfBytes(v / B1, n - 1);
      assert Bytes(v, n)[1..] == Bytes(v / B1, n - 1);
    }
  }

  lemma PowerOf32()
    ensures Pow2(32) == B4
  {
    assert Pow2(12) == 16 * Pow2(8) && Pow2(16) == 16 * Pow2(12) && Pow2(20) == 16 * Pow2(16);
    assert Pow2(24) == 16 * Pow2(20) && Pow2(28) == 16 * Pow2(24) && Pow2(32) == 16 * Pow2(28);
  }

  lemma Number2(s: seq<byte>)
    requires |s| == 2
    ensures Number(s) == s[0] + s[1] * B1
  {
    assert Number(s[1..]) == s[1] + B1 * Number(s[1..][1..]);
  }

  lemma Number4(s: seq<byte>)
    requires |s| == 4
    ensures Number(s) == s[0] + s[1] * B1 + s[2] * B2 + s[3] * B3
  {
    Number2(s[2..]);
    assert s[1..][1..] == s[2..];
    assert Number(s[1..]) == s[1] + B1 * Number(s[2..]);
  }

  // A store into 32 bits keeps the number modulo 2^32.
  lemma NumberOfLowBytes(v: nat)
    ensures Number(Bytes(v, 4)) == v % B4
  {
    var a, b, c, d := v, v / B1, v / B1 / B1, v / B1 / B1 / B1;
    assert Bytes(d, 1) == [d % B1];
    assert Bytes(c, 2) == [c % B1, d % B1];
    assert Bytes(b, 3) == [b % B1, c % B1, d % B1];
    Number4(Bytes(a, 4));
  }

  lemma Number8(s: seq<byte>)
    requires |s| == 8
    ensures Number(s) == s[0] + s[1] * B1 + s[2] * B2 + s[3] * B3
                         + s[4] * B4 + s[5] * B5 + s[6] * B6 + s[7] * B7
  {
    var t := s[1..];
    var u, v, w := t[1..], t[1..][1..], t[1..][1..][1..];
    assert w == s[4..];
    Number4(w);
    assert Number(v) == v[0] + B1 * Number(w);
    assert Number(u) == u[0] + B1 * Number(v);
    assert Number(t) == t[0] + B1 * Number(u);
  }

  lemma Digits2(x: nat, a: byte, b: byte)
    requires x == a + b * B1
    ensures x % B1 == a
    ensures x / B1 % B1 == b
  {
    assert x / B1 == b;
  }

  lemma Digits4(x: nat, a: byte, b: byte, c: byte, d: byte)
    requires x == a + b * B1 + c * B2 + d * B3
    ensures x % B1 == a
    ensures x / B1 % B1 == b
    ensures x / B2 % B1 == c
    ensures x / B3 % B1 == d
  {
    assert x / B1 == b + c * B1 + d * B2;
    assert x / B2 == c + d * B1;
    assert x / B3 == d;
  }

  lemma DivideTwice(x: nat)
    ensures x / B2 == x / B1 / B1 && x / B3 == x / B2 / B1 && x / B4 == x / B3 / B1
    ensures x / B5 == x / B4 / B1 && x / B6 == x / B5 / B1 && x / B7 == x / B6 / B1
  {
  }

  lemma NextDigit(x: nat, a: byte, rest: nat)
    requires x == a + rest * B1
    ensures x % B1 == a && x / B1 == rest
  {
  }

  lemma Digits8(x: nat, a: byte, b: byte, c: byte, d: byte, e: byte, f: byte, g: byte, h: byte)
    requires x == a + b * B1 + c * B2 + d * B3 + e * B4 + f * B5 + g * B6 + h * B7
    ensures x % B1 == a && x / B1 % B1 == b && x / B2 % B1 == c && x / B3 % B1 == d
    ensures x / B4 % B1 == e && x / B5 % B1 == f && x / B6 % B1 == g && x / B7 % B1 == h
  {
    DivideTwice(x);
    var x6 := g + h * B1;
    var x5 := f + x6 * B1;
    var x4 := e + x5 * B1;
    var x3 := d + x4 * B1;
    var x2 := c + x3 * B1;
    var x1 := b + x2 * B1;
    NextDigit(x, a, x1);
    NextDigit(x1, b, x2);
    NextDigit(x2, c, x3);
    NextDigit(x3, d, x4);
    NextDigit(x4, e, x5);
    NextDigit(x5, f, x6);
    NextDigit(x6, g, h);
  }

  lemma Swap16IsReverse(s: seq<byte>)
    requires |s| == 2
    ensures Le16ToCpu(Number(s)) == Number(Reverse(s))
  {
    Number2(s);
    Number2(Reverse(s));
    Digits2(Number(s), s[0], s[1]);
  }

  lemma Swap32IsReverse(s: seq<byte>)
    requires |s| == 4
    ensures Le32ToCpu(Number(s)) == Number(Reverse(s))
  {
    Number4(s);
    Number4(Reverse(s));
    Digits4(Number(s), s[0], s[1], s[2], s[3]);
  }

  lemma Swap64IsReverse(s: seq<byte>)
    requires |s| == 8
    ensures Le64ToCpu(Number(s)) == Number(Reverse(s))
  {
    Number8(s);
    Number8(Reverse(s));
    Digits8(Number(s), s[0], s[1], s[2], s[3], s[4], s[5], s[6], s[7]);
  }

  // The width of the conversion macro applied to a field: CVT16, CVT32 or CVT64.
  type Width = w: nat | w == 2 || w == 4 || w == 8 witness 2

  function Swap(v: nat, width: Width): nat {
    if width == 2 then Le16ToCpu(v) else if width == 4 then Le32ToCpu(v) else Le64ToCpu(v)
  }

  // x = le##_to_cpu(x) on the bytes of x, truncated to the size of x.
  function Converted(s: seq<byte>, width: Width, big: bool): (r: seq<byte>)
    ensures |r| == |s|
  {
    Store(Swap(Load(s, big), width), |s|, big)
  }

  lemma ReverseTwice<T>(s: seq<T>)
    ensures Reverse(Reverse(s)) == s
  {
  }

  /** On a field as wide as the macro, a conversion reverses the bytes,
      whatever the byte order of the host.
   */
  lemma ConvertedReverses(s: seq<byte>, width: Width, big: bool)
    requires |s| == width
    ensures Converted(s, width, big) == Reverse(s)
  {
    var n := Significance(s, big);
    if width == 2 {
      Swap16IsReverse(n);
    } else if width == 4 {
      Swap32IsReverse(n);
    } else {
      Swap64IsReverse(n);
    }
    BytesOfNumber(Reverse(n));
    ReverseTwice(s);
  }

  // CVT32 on a 16 bit field moves both bytes out of the field.
  lemma {:induction false} ConvertedClears(s: seq<byte>, big: bool)
    requires |s| == 2
    ensures Converted(s, 4, big) == [0, 0]
  {
    var n := Significance(s, big);
    Number2(n);
    var v := Le32ToCpu(Number(n));
    assert v == n[0] * B3 + n[1] * B2;
    assert v % B1 == 0 && v / B1 == n[0] * B2 + n[1] * B1;
    assert Bytes(v, 2) == [0, 0] by {
      assert Bytes(v / B1, 1) == [0] + Bytes(v / B1 / B1, 0);
    }
  }

  // What a conversion does to the bytes of a field as wide as its macro, or half as wide.
  function Swapped(s: seq<byte>, width: Width): (r: seq<byte>)
    ensures |r| == |s|
  {
    if |s| == width then Reverse(s) else seq(|s|, i => 0)
  }

  lemma ConvertedIsSwapped(s: seq<byte>, width: Width, big: bool)
    requires |s| == width || (|s| == 2 && width == 4)
    ensures Converted(s, width, big) == Swapped(s, width)
  {
    if |s| == width {
      ConvertedReverses(s, width, big);
    } else {
      ConvertedClears(s, big);
    }
  }
}
