/** Bytes and machine words.

    A byte is a number below 256. A machine word whose bits the program looks
    at is the sequence of its bits, least significant first, so that the
    operators of C read: x & 1 is x[0], x >> 1 drops x[0] and appends a zero,
    and x ^ y works position by position.
 */
module Bits {

  type byte = n: int | 0 <= n < 256

  function Zeros(n: nat): (r: seq<bool>)
    ensures |r| == n && forall i :: 0 <= i < n ==> !r[i]
  {
    seq(n, i => false)
  }

  function Ones(n: nat): (r: seq<bool>)
    ensures |r| == n && forall i :: 0 <= i < n ==> r[i]
  {
    seq(n, i => true)
  }

  function Xor(a: seq<bool>, b: seq<bool>): (r: seq<bool>)
    requires |a| == |b|
    ensures |r| == |a| && forall i :: 0 <= i < |a| ==> r[i] == (a[i] != b[i])
  {
    seq(|a|, i requires 0 <= i < |a| => a[i] != b[i])
  }

  function Shr(a: seq<bool>, n: nat): (r: seq<bool>)
    requires n <= |a|
    ensures |r| == |a|
  {
    a[n..] + Zeros(n)
  }

  function Pow2(n: nat): (r: nat)
    ensures r > 0
  {
    if n == 0 then 1 else 2 * Pow2(n - 1)
  }

  // The low n bits of a number, least significant first.
  function ToBits(v: nat, n: nat): (r: seq<bool>)
    ensures |r| == n
  {
    if n == 0 then [] else [v % 2 == 1] + ToBits(v / 2, n - 1)
  }

  function FromBits(bits: seq<bool>): (v: nat)
    ensures v < Pow2(|bits|)
  {
    if bits == [] then 0 else (if bits[0] then 1 else 0) + 2 * FromBits(bits[1..])
  }

  lemma {:induction false} FromToBits(v: nat, n: nat)
    requires v < Pow2(n)
    ensures FromBits(ToBits(v, n)) == v
  {
    if n > 0 {
      FromToBits(v / 2, n - 1);
    }
  }

  lemma {:induction false} ToFromBits(bits: seq<bool>)
    ensures ToBits(FromBits(bits), |bits|) == bits
  {
    if bits != [] {
      ToFromBits(bits[1..]);
    }
  }

  lemma {:induction false} ToBitsOfWider(v: nat, n: nat, m: nat)
    requires v < Pow2(n)
    ensures ToBits(v, n + m) == ToBits(v, n) + Zeros(m)
  {
    if n > 0 {
      ToBitsOfWider(v / 2, n - 1, m);
    } else if m > 0 {
      ToBitsOfWider(0, 0, m - 1);
    }
  }

  function ByteBits(b: byte): (r: seq<bool>)
    ensures |r| == 8
  {
    ToBits(b, 8)
  }

  // The bits of a buffer in the order in which they are transmitted.
  function BufferBits(buf: seq<byte>): (r: seq<bool>)
    ensures |r| == 8 * |buf|
  {
    if buf == [] then [] else ByteBits(buf[0]) + BufferBits(buf[1..])
  }

  lemma {:induction false} BufferBitsConcat(u: seq<byte>, v: seq<byte>)
    ensures BufferBits(u + v) == BufferBits(u) + BufferBits(v)
  {
    if u == [] {
      assert u + v == v;
    } else {
      assert (u + v)[1..] == u[1..] + v;
      BufferBitsConcat(u[1..], v);
    }
  }

  lemma {:induction false} BufferBitsInjective(u: seq<byte>, v: seq<byte>)
    requires |u| == |v| && BufferBits(u) == BufferBits(v)
    ensures u == v
  {
    if u != [] {
      assert ByteBits(u[0]) == BufferBits(u)[..8] && ByteBits(v[0]) == BufferBits(v)[..8];
      assert BufferBits(u[1..]) == BufferBits(u)[8..] && BufferBits(v[1..]) == BufferBits(v)[8..];
      FromToBits(u[0], 8);
      FromToBits(v[0], 8);
      BufferBitsInjective(u[1..], v[1..]);
      assert u == [u[0]] + u[1..] && v == [v[0]] + v[1..];
    }
  }
}
