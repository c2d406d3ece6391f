/** The CRC of the DDF1 format handler, lib/format/ddf/ddf1_crc.c.

    Three descriptions of one checksum, each proved equal to the next: the
    table-driven loop the handler runs, the bit-serial shift register of
    section 8 of RFC 1952, and the remainder of a long division of bit strings
    by the generator polynomial of section 8.1.1.6.2 of ITU-T V.42.
 */
module Crc32 {
  import opened Bits

  const CRC_TABLE_SIZE := 256

  // A uint32_t. As a CRC register, bit i is the coefficient of x^(31-i).
  type Word = s: seq<bool> | |s| == 32 witness Zeros(32)

  const ALL_ONES: Word := Ones(32)

  // 0xEDB88320, least significant bit first.
  const POLY: Word := [
    false, false, false, false, false, true, false, false,
    true, true, false, false, false, false, false, true,
    false, false, false, true, true, true, false, true,
    true, false, true, true, false, true, true, true]

  // x^32+x^26+x^23+x^22+x^16+x^12+x^11+x^10+x^8+x^7+x^5+x^4+x^2+x+1
  const GENERATOR: seq<nat> := [32, 26, 23, 22, 16, 12, 11, 10, 8, 7, 5, 4, 2, 1, 0]

  /** The constant holds the standard's generator without its leading term: bit 31 - e
      is the coefficient of x^e.
   */
  lemma PolyIsGenerator()
    ensures forall e :: 0 <= e < 32 ==> (POLY[31 - e] <==> e in GENERATOR)
    ensures 32 in GENERATOR && forall e :: e in GENERATOR ==> 0 <= e <= 32
  {
  }

  // ------------------------------------------------------ the shift register

  // One clock of the reflected register.
  function Step(c: Word): Word {
    if c[0] then Xor(Shr(c, 1), POLY) else Shr(c, 1)
  }

  function Steps(c: Word, n: nat): Word
    decreases n, c
  {
    if n == 0 then c else Steps(Step(c), n - 1)
  }

  // Shift message bits into the register one at a time.
  function Feed(c: Word, bits: seq<bool>): Word
    decreases bits
  {
    if bits == [] then c else Feed(Step(c[0 := c[0] != bits[0]]), bits[1..])
  }

  // The bit-serial CRC of a buffer, with its final complement.
  function BitSerialCrc(init: Word, buf: seq<byte>): Word {
    Xor(Feed(init, BufferBits(buf)), ALL_ONES)
  }

  // Bits padded to a word, first bit least significant.
  function Pad(bits: seq<bool>): (w: Word)
    requires |bits| <= 32
  {
    bits + Zeros(32 - |bits|)
  }

  lemma XorInjective(a: seq<bool>, b: seq<bool>, c: seq<bool>)
    requires |a| == |b| == |c| && Xor(a, c) == Xor(b, c)
    ensures a == b
  {
    var x, y := Xor(a, c), Xor(b, c);
    forall i | 0 <= i < |a| ensures a[i] == b[i] {
      assert x[i] == y[i] && x[i] == (a[i] != c[i]) && y[i] == (b[i] != c[i]);
    }
  }

  lemma PadInjective(c: Word, u: seq<bool>, v: seq<bool>)
    requires |u| == |v| <= 32 && Xor(c, Pad(u)) == Xor(c, Pad(v))
    ensures u == v
  {
    assert Xor(Pad(u), c) == Xor(c, Pad(u)) && Xor(Pad(v), c) == Xor(c, Pad(v));
    XorInjective(Pad(u), Pad(v), c);
    assert u == Pad(u)[..|u|] && v == Pad(v)[..|v|];
  }

  // The low bit that falls out is the top bit of the result.
  lemma StepInjective(a: Word, b: Word)
    requires Step(a) == Step(b)
    ensures a == b
  {
    assert a[0] == Step(a)[31] && b[0] == Step(b)[31];
    forall i | 1 <= i < 32 ensures a[i] == b[i] {
      assert Shr(a, 1)[i - 1] == a[i] && Shr(b, 1)[i - 1] == b[i];
      assert Step(a)[i - 1] == Step(b)[i - 1];
    }
  }

  lemma {:induction false} StepsInjective(a: Word, b: Word, n: nat)
    requires Steps(a, n) == Steps(b, n)
    ensures a == b
    decreases n
  {
    if n > 0 {
      StepsInjective(Step(a), Step(b), n - 1);
      StepInjective(a, b);
    }
  }

  lemma {:induction false} FeedConcat(c: Word, u: seq<bool>, v: seq<bool>)
    ensures Feed(c, u + v) == Feed(Feed(c, u), v)
    decreases u
  {
    if u == [] {
      assert u + v == v;
    } else {
      assert (u + v)[1..] == u[1..] + v;
      FeedConcat(Step(c[0 := c[0] != u[0]]), u[1..], v);
    }
  }

  lemma {:induction false} FeedInjective(a: Word, b: Word, bits: seq<bool>)
    requires Feed(a, bits) == Feed(b, bits)
    ensures a == b
    decreases bits
  {
    if bits != [] {
      var x, y := a[0 := a[0] != bits[0]], b[0 := b[0] != bits[0]];
      FeedInjective(Step(x), Step(y), bits[1..]);
      StepInjective(x, y);
      assert x[0] == y[0];
      assert forall i :: 0 < i < 32 ==> a[i] == x[i] && b[i] == y[i];
    }
  }

  // The first bit is shifted out, and the others move up.
  lemma StepOfPadded(c: Word, bits: seq<bool>)
    requires 0 < |bits| <= 32
    ensures Step(Xor(c, Pad(bits))) == Xor(Step(c[0 := c[0] != bits[0]]), Pad(bits[1..]))
  {
    var x, all, rest := c[0 := c[0] != bits[0]], Xor(c, Pad(bits)), Pad(bits[1..]);
    var a, b := Step(all), Xor(Step(x), rest);
    assert all[0] == x[0] && Shr(all, 1)[31] == Shr(x, 1)[31] == rest[31] == false;
    forall i | 0 <= i < 31 ensures Shr(all, 1)[i] == (Shr(x, 1)[i] != rest[i]) {
      var k := i + 1;
      assert Shr(all, 1)[i] == all[k] && Shr(x, 1)[i] == x[k] && rest[i] == Pad(bits)[k];
    }
    assert forall i :: 0 <= i < 32 ==> a[i] == b[i];
  }

  // Up to 32 bits can be XORed in together before the register is clocked.
  lemma {:induction false} FeedIsSteps(c: Word, bits: seq<bool>)
    requires |bits| <= 32
    ensures Feed(c, bits) == Steps(Xor(c, Pad(bits)), |bits|)
    decreases bits
  {
    if bits == [] {
      assert Xor(c, Pad(bits)) == c;
    } else {
      var x := c[0 := c[0] != bits[0]];
      FeedIsSteps(Step(x), bits[1..]);
      StepOfPadded(c, bits);
    }
  }

  /** Burst detection: two messages that differ only inside one window of at
      most 32 consecutive bits, wherever it lies, leave different registers.
   */
  lemma BurstDetected(c: Word, pre: seq<bool>, u: seq<bool>, v: seq<bool>, post: seq<bool>)
    requires |u| == |v| <= 32
    ensures Feed(c, pre + u + post) == Feed(c, pre + v + post) <==> u == v
  {
    if Feed(c, pre + u + post) == Feed(c, pre + v + post) {
      FeedConcat(c, pre + u, post);
      FeedConcat(c, pre + v, post);
      FeedInjective(Feed(c, pre + u), Feed(c, pre + v), post);
      FeedConcat(c, pre, u);
      FeedConcat(c, pre, v);
      var s := Feed(c, pre);
      FeedIsSteps(s, u);
      FeedIsSteps(s, v);
      StepsInjective(Xor(s, Pad(u)), Xor(s, Pad(v)), |u|);
      PadInjective(s, u, v);
    }
  }

  // 32 is the limit: flipping the 33 bits of the generator goes unnoticed.
  lemma GeneratorUndetected(c: Word, u: seq<bool>)
    requires |u| == 33
    ensures Feed(c, u) == Feed(c, Xor(u, [true] + POLY))
  {
    var v := Xor(u, [true] + POLY);
    var x, y := c[0 := c[0] != u[0]], c[0 := c[0] != v[0]];
    FeedIsSteps(Step(x), u[1..]);
    FeedIsSteps(Step(y), v[1..]);
    assert v[1..] == Xor(u[1..], POLY) && Shr(x, 1) == Shr(y, 1);
    assert Pad(u[1..]) == u[1..] && Pad(v[1..]) == v[1..];
    assert Step(y) == Xor(Step(x), POLY);
    assert Xor(Step(x), u[1..]) == Xor(Step(y), v[1..]);
  }

  /** The window of four bytes: buffers that differ only inside it have the
      same CRC exactly when they are the same buffer.
   */
  lemma FourByteWindow(init: Word, a: seq<byte>, b: seq<byte>, k: nat)
    requires |a| == |b| && k <= |a|
    requires forall i :: 0 <= i < |a| && !(k <= i < k + 4) ==> a[i] == b[i]
    ensures BitSerialCrc(init, a) == BitSerialCrc(init, b) <==> a == b
  {
    if BitSerialCrc(init, a) == BitSerialCrc(init, b) {
      var e := if k + 4 <= |a| then k + 4 else |a|;
      var pre, post := a[..k], a[e..];
      assert a == pre + a[k..e] + post && b == pre + b[k..e] + post;
      BufferBitsConcat(pre + a[k..e], post);
      BufferBitsConcat(pre, a[k..e]);
      BufferBitsConcat(pre + b[k..e], post);
      BufferBitsConcat(pre, b[k..e]);
      XorInjective(Feed(init, BufferBits(a)), Feed(init, BufferBits(b)), ALL_ONES);
      BurstDetected(init, BufferBits(pre), BufferBits(a[k..e]), BufferBits(b[k..e]), BufferBits(post));
      BufferBitsInjective(a[k..e], b[k..e]);
    }
  }

  // -------------------------------------------------------- long division

  // Cancel the leading coefficient of a bit string against x^32 + ... + 1
  // until 32 coefficients remain.
  function Remainder(d: seq<bool>): Word
    requires |d| >= 32
    decreases |d|
  {
    if |d| == 32 then d
    else if d[0] then Remainder(XorFront(d[1..], POLY))
    else Remainder(d[1..])
  }

  function XorFront(d: seq<bool>, w: Word): (r: seq<bool>)
    requires |d| >= 32
    ensures |r| == |d|
    ensures forall i :: 0 <= i < |d| ==> r[i] == if i < 32 then d[i] != w[i] else d[i]
  {
    Xor(d[..32], w) + d[32..]
  }

  lemma XorFrontTwice(d: seq<bool>, a: Word, b: Word)
    requires |d| >= 32
    ensures XorFront(XorFront(d, a), b) == XorFront(d, Xor(a, b))
  {
    assert XorFront(d, a)[..32] == Xor(d[..32], a);
    assert Xor(Xor(d[..32], a), b) == Xor(d[..32], Xor(a, b));
  }

  lemma XorFrontTail(d: seq<bool>, x: Word)
    requires |d| > 32
    ensures XorFront(d, x)[0] == (d[0] != x[0])
    ensures XorFront(d, x)[1..] == XorFront(d[1..], Shr(x, 1))
  {
    var e, f := XorFront(d, x)[1..], XorFront(d[1..], Shr(x, 1));
    forall i | 0 <= i < |e| ensures e[i] == f[i] {
      var k := i + 1;
      assert e[i] == XorFront(d, x)[k] && d[1..][i] == d[k];
      if i < 31 {
        assert Shr(x, 1)[i] == x[k];
      } else if i == 31 {
        assert !Shr(x, 1)[i];
      }
    }
  }

  /** The register after a message is the remainder of the message, preceded
      by the preset register and followed by 32 zeros, under the generator.
   */
  lemma {:induction false} FeedIsRemainder(c: Word, bits: seq<bool>)
    ensures Feed(c, bits) == Remainder(XorFront(bits + Zeros(32), c))
    decreases bits
  {
    var all := bits + Zeros(32);
    if bits == [] {
      assert XorFront(all, c) == c;
    } else {
      var x := c[0 := c[0] != bits[0]];
      var rest := bits[1..] + Zeros(32);
      XorFrontTail(all, c);
      assert all[1..] == rest && Shr(c, 1) == Shr(x, 1);
      XorFrontTwice(rest, Shr(x, 1), POLY);
      FeedIsRemainder(Step(x), bits[1..]);
    }
  }

  /** The receiver's check of section 8.1.1.6.2 of ITU-T V.42: behind any buffer its
      complemented CRC leaves the one remainder of 32 ones followed by 32 zeros.
   */
  lemma ReceiverResidue(init: Word, buf: seq<byte>)
    ensures Feed(init, BufferBits(buf) + BitSerialCrc(init, buf)) == Remainder(ALL_ONES + Zeros(32))
  {
    hide Remainder, XorFront;
    var c, crc := Feed(init, BufferBits(buf)), BitSerialCrc(init, buf);
    FeedConcat(init, BufferBits(buf), crc);
    FeedIsRemainder(c, crc);
    assert XorFront(crc + Zeros(32), c) == ALL_ONES + Zeros(32);
  }

  // -------------------------------------------------------- the fast form

  lemma {:induction false} StepsThroughZeros(r: Word, h: Word, n: nat)
    requires n <= 32 && forall i :: 0 <= i < n ==> !h[i]
    ensures Steps(Xor(r, h), n) == Xor(Steps(r, n), Shr(h, n))
    decreases n
  {
    if n == 0 {
      assert Shr(h, 0) == h;
    } else {
      assert Step(Xor(r, h)) == Xor(Step(r), Shr(h, 1));
      StepsThroughZeros(Step(r), Shr(h, 1), n - 1);
      assert Shr(Shr(h, 1), n - 1) == Shr(h, n);
    }
  }

  // c & 0xFF as an index
  function LowByte(c: Word): byte {
    FromBits(c[..8])
  }

  function TableEntry(n: byte): Word {
    Steps(ToBits(n, 32), 8)
  }

  lemma StepsByLowByte(x: Word)
    ensures Xor(TableEntry(LowByte(x)), Shr(x, 8)) == Steps(x, 8)
  {
    ToFromBits(x[..8]);
    ToBitsOfWider(LowByte(x), 8, 24);
    var low: Word, high: Word := ToBits(LowByte(x), 32), Zeros(8) + x[8..];
    assert x == Xor(low, high);
    StepsThroughZeros(low, high, 8);
    assert Shr(high, 8) == Shr(x, 8);
  }

  // One byte of the table-driven loop is eight clocks of the register.
  lemma TableStep(c: Word, b: byte)
    ensures Xor(TableEntry(LowByte(Xor(c, ToBits(b, 32)))), Shr(c, 8)) == Feed(c, ByteBits(b))
  {
    ToBitsOfWider(b, 8, 24);
    var x: Word := Xor(c, ToBits(b, 32));
    FeedIsSteps(c, ByteBits(b));
    assert Pad(ByteBits(b)) == ToBits(b, 32);
    StepsByLowByte(x);
    assert Shr(x, 8) == Shr(c, 8);
  }

  /** The static table and its compute-once flag. */
  class CrcTable {
    const table: array<Word>
    var isNew: bool

    ghost predicate Valid()
      reads this, table
    {
      && table.Length == CRC_TABLE_SIZE
      && (!isNew ==> forall n: nat :: n < CRC_TABLE_SIZE ==> table[n] == TableEntry(n))
    }

    constructor ()
      ensures Valid() && isNew && fresh(table)
    {
      table := new Word[CRC_TABLE_SIZE](_ => Zeros(32));
      isNew := true;
    }

    static method Entry(n: byte) returns (c: Word)
      ensures c == TableEntry(n)
    {
      c := ToBits(n, 32);
      var k := 0;
      while k < 8
        invariant 0 <= k <= 8
        invariant Steps(c, 8 - k) == TableEntry(n)
      {
        c := Step(c);
        k := k + 1;
      }
    }

    method Init()
      requires Valid()
      modifies this, table
      ensures Valid() && !isNew
    {
      if isNew {
        isNew := false;
        var n := 0;
        while n < CRC_TABLE_SIZE
          invariant 0 <= n <= CRC_TABLE_SIZE
          invariant !isNew
          invariant forall m: nat :: m < n ==> table[m] == TableEntry(m)
        {
          var c := Entry(n);
          table[n] := c;
          n := n + 1;
        }
      }
    }

    // The table-driven CRC of len bytes, whatever was computed before, is the bit-serial one.
    method Crc(init: Word, buf: array<byte>, from: nat, len: nat) returns (r: Word)
      requires Valid() && from + len <= buf.Length
      modifies this, table
      ensures Valid() && !isNew
      ensures r == BitSerialCrc(init, buf[from..from + len])
    {
      Init();
      r := init;
      var n := 0;
      while n < len
        invariant 0 <= n <= len
        invariant Valid() && !isNew
        invariant r == Feed(init, BufferBits(buf[from..from + n]))
      {
        var b := buf[from + n];
        TableStep(r, b);
        NextByte(init, buf[from..from + n], b);
        assert buf[from..from + n + 1] == buf[from..from + n] + [b];
        r := Xor(table[LowByte(Xor(r, ToBits(b, 32)))], Shr(r, 8));
        n := n + 1;
      }
      return Xor(r, ALL_ONES);
    }
  }

  lemma NextByte(init: Word, s: seq<byte>, b: byte)
    ensures Feed(init, BufferBits(s + [b])) == Feed(Feed(init, BufferBits(s)), ByteBits(b))
  {
    BufferBitsConcat(s, [b]);
    assert BufferBits([b]) == ByteBits(b);
    FeedConcat(init, BufferBits(s), ByteBits(b));
  }
}
