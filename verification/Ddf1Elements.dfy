/** The two arrays at the end of a configuration record when it counts more
    elements than the id array has room for, so that the loop of
    ddf1_cvt_config_record (lib/format/ddf/ddf1_cvt.c) swaps some bytes twice.

    A conversion of exact fields moves bytes about, so the proof follows where
    each byte of the result came from; only positions are computed with.
 */
module Ddf1Elements {
  import opened Bits
  import Buffers
  import opened Ddf1Fields
  import opened Ddf1Tables
  import Ddf1Cvt

  // The first i rounds of the loop.
  function After(s: seq<byte>, cap: nat, i: nat): (r: seq<byte>)
    requires 512 + 4 * cap + 8 * i <= |s|
    ensures |r| == |s|
    decreases i
  {
    if i == 0 then s else CvtField(CvtField(After(s, cap, i - 1), IdField(i - 1)), OffField(cap, i - 1))
  }

  lemma AppendField(s: seq<byte>, fs: seq<Field>, f: Field)
    requires AllUsable(fs, |s|) && Usable(f, |s|)
    ensures AllUsable(fs + [f], |s|) && CvtFields(s, fs + [f]) == CvtField(CvtFields(s, fs), f)
  {
    hide CvtField;
    var l := [f];
    CvtFieldsConcat(s, fs, l);
    assert l[1..] == [];
  }

  lemma {:induction false} AfterIsEntries(s: seq<byte>, cap: nat, i: nat)
    requires 512 + 4 * cap + 8 * i <= |s|
    ensures AllUsable(Elements(cap, i), |s|) && After(s, cap, i) == CvtFields(s, Elements(cap, i))
    decreases i
  {
    hide CvtField, CvtFields;
    Ddf1Cvt.EntriesUsable(Config(cap), i, |s|);
    if i == 0 {
      NoFields(s);
    } else {
      var es, f, g := Elements(cap, i - 1), IdField(i - 1), OffField(cap, i - 1);
      AfterIsEntries(s, cap, i - 1);
      AppendField(s, es, f);
      AppendField(s, es + [f], g);
      assert es + [f] + [g] == Elements(cap, i);
    }
  }

  lemma NoFields(s: seq<byte>)
    ensures CvtFields(s, []) == s
  {
  }

  // ------------------------------------------------------------- positions

  // The position whose byte a swap of [off, off + size) moves to p.
  function Flip(off: nat, size: nat, p: nat): nat {
    if off <= p < off + size then 2 * off + size - 1 - p else p
  }

  // The position whose byte the first i rounds move to p.
  function Source(cap: nat, i: nat, p: nat): nat
    decreases i
  {
    if i == 0 then p
    else Source(cap, i - 1, Flip(512 + 4 * (i - 1), 4, Flip(512 + 4 * cap + 8 * (i - 1), 8, p)))
  }

  lemma SourceRound(cap: nat, i: nat, p: nat)
    ensures Source(cap, i + 1, p) == Source(cap, i, Flip(512 + 4 * i, 4, Flip(512 + 4 * cap + 8 * i, 8, p)))
  {
    hide Flip;
  }

  lemma CvtFieldMoves(s: seq<byte>, f: Field, p: nat)
    requires Usable(f, |s|) && Exact(f) && p < |s|
    ensures Flip(f.off, f.size, p) < |s|
    ensures CvtField(s, f)[p] == s[Flip(f.off, f.size, p)]
  {
  }

  lemma SourceStart(cap: nat, j: nat, p: nat, q: nat)
    requires q < 8
    ensures Source(cap, 0, p) == p && SourceInOffset(cap, j, 0, q) == q
  {
  }

  lemma {:induction false} AfterMoves(s: seq<byte>, cap: nat, i: nat, p: nat)
    requires 512 + 4 * cap + 8 * i <= |s| && p < |s|
    ensures Source(cap, i, p) < |s| && After(s, cap, i)[p] == s[Source(cap, i, p)]
    decreases i
  {
    hide CvtField, Flip;
    if i > 0 {
      hide After, Source;
      var u := After(s, cap, i - 1);
      var f, g := IdField(i - 1), OffField(cap, i - 1);
      SourceRound(cap, i - 1, p);
      CvtFieldMoves(CvtField(u, f), g, p);
      CvtFieldMoves(u, f, Flip(g.off, g.size, p));
      AfterMoves(s, cap, i - 1, Flip(f.off, f.size, Flip(g.off, g.size, p)));
    }
  }

  // Position q of off[j] after i rounds. off[j] shares its bytes with
  // ids[cap + 2j] and ids[cap + 2j + 1]; only ids[0], when there is no room at
  // all for ids, is swapped before the offset it lies in.
  function SourceInOffset(cap: nat, j: nat, i: nat, q: nat): (r: nat)
    requires q < 8
    ensures r < 8
  {
    var early := cap + j == 0;
    var low, high := cap + 2 * j < i, cap + 2 * j + 1 < i;
    var q1 := if high && q >= 4 then 11 - q else q;
    var q2 := if low && !early && q1 < 4 then 3 - q1 else q1;
    var q3 := if j < i then 7 - q2 else q2;
    if low && early && q3 < 4 then 3 - q3 else q3
  }

  lemma OffsetRound(cap: nat, j: nat, i: nat, q: nat)
    requires q < 8
    ensures var base := 512 + 4 * cap + 8 * j;
      var p := Flip(512 + 4 * i, 4, Flip(512 + 4 * cap + 8 * i, 8, base + q));
      base <= p < base + 8 && SourceInOffset(cap, j, i, p - base) == SourceInOffset(cap, j, i + 1, q)
  {
    var q' := if j == i then 7 - q else q;
    assert Flip(512 + 4 * cap + 8 * i, 8, 512 + 4 * cap + 8 * j + q) == 512 + 4 * cap + 8 * j + q';
  }

  lemma {:induction false} SourceOfOffset(cap: nat, j: nat, i: nat, q: nat)
    requires q < 8
    ensures var base := 512 + 4 * cap + 8 * j;
      Source(cap, i, base + q) == base + SourceInOffset(cap, j, i, q)
    decreases i
  {
    hide *;
    var base := 512 + 4 * cap + 8 * j;
    SourceStart(cap, j, base + q, q);
    if i > 0 {
      var p := Flip(512 + 4 * (i - 1), 4, Flip(512 + 4 * cap + 8 * (i - 1), 8, base + q));
      SourceRound(cap, i - 1, base + q);
      OffsetRound(cap, j, i - 1, q);
      SourceOfOffset(cap, j, i - 1, p - base);
    }
  }

  lemma {:induction false} SourceOfId(cap: nat, k: nat, i: nat, q: nat)
    requires k < cap && q < 4
    ensures Source(cap, i, 512 + 4 * k + q) == 512 + 4 * k + if k < i then 3 - q else q
    decreases i
  {
    if i > 0 {
      var p := 512 + 4 * k + q;
      assert Flip(512 + 4 * cap + 8 * (i - 1), 8, p) == p;
      assert Flip(512 + 4 * (i - 1), 4, p) == 512 + 4 * k + if k == i - 1 then 3 - q else q;
      SourceOfId(cap, k, i - 1, if k == i - 1 then 3 - q else q);
    }
  }

  lemma {:induction false} SourceElsewhere(cap: nat, n: nat, i: nat, p: nat)
    requires i <= n && (p < 512 || 512 + 4 * cap + 8 * n <= p)
    ensures Source(cap, i, p) == p
    decreases i
  {
    if i > 0 {
      assert Flip(512 + 4 * cap + 8 * (i - 1), 8, p) == p;
      assert Flip(512 + 4 * (i - 1), 4, p) == p;
      SourceElsewhere(cap, n, i - 1, p);
    }
  }

  // A second pass restores off[j] unless exactly one of the two ids in it is counted.
  lemma OffsetTwice(cap: nat, j: nat, n: nat, q: nat)
    requires j < n && q < 8
    ensures SourceInOffset(cap, j, n, SourceInOffset(cap, j, n, q))
         == if cap + 2 * j + 1 != n then q else if q < 4 then 3 - q else 11 - q
  {
  }

  // Where the bytes of a slot of ids, of an offset, and the others come from after two passes.
  lemma SourceOfIdTwice(cap: nat, k: nat, n: nat, q: nat)
    requires k < cap < n && q < 4
    ensures Source(cap, n, Source(cap, n, 512 + 4 * k + q)) == 512 + 4 * k + q
  {
    hide Source;
    SourceOfId(cap, k, n, q);
    SourceOfId(cap, k, n, 3 - q);
  }

  lemma SourceOfOffsetTwice(cap: nat, j: nat, n: nat, q: nat)
    requires j < n && q < 8
    ensures var base := 512 + 4 * cap + 8 * j;
      Source(cap, n, Source(cap, n, base + q))
      == base + if cap + 2 * j + 1 != n then q else if q < 4 then 3 - q else 11 - q
  {
    hide Source, SourceInOffset;
    SourceOfOffset(cap, j, n, q);
    SourceOfOffset(cap, j, n, SourceInOffset(cap, j, n, q));
    OffsetTwice(cap, j, n, q);
  }

  // The offset in which the ids end, when they end inside one.
  predicate EndsIn(cap: nat, n: nat, j: nat) {
    cap + 2 * j + 1 == n
  }

  lemma SourceTwice(cap: nat, n: nat, p: nat)
    requires n > cap
    requires forall j: nat :: EndsIn(cap, n, j) ==> !(512 + 4 * cap + 8 * j <= p < 520 + 4 * cap + 8 * j)
    ensures Source(cap, n, Source(cap, n, p)) == p
  {
    hide Source;
    if p < 512 || 512 + 4 * cap + 8 * n <= p {
      SourceElsewhere(cap, n, n, p);
    } else if p < 512 + 4 * cap {
      SourceOfIdTwice(cap, (p - 512) / 4, n, (p - 512) % 4);
    } else {
      var d := p - 512 - 4 * cap;
      assert !EndsIn(cap, n, d / 8);
      SourceOfOffsetTwice(cap, d / 8, n, d % 8);
    }
  }

  function SwapHalves(g: seq<byte>): (r: seq<byte>)
    requires |g| == 8
    ensures |r| == 8
  {
    seq(8, q requires 0 <= q < 8 => g[if q < 4 then 3 - q else 11 - q])
  }

  // Both halves read the same backwards.
  predicate OwnSwap(s: seq<byte>, base: nat)
    requires base + 8 <= |s|
  {
    SwapHalves(Buffers.Part(s, base, 8)) == Buffers.Part(s, base, 8)
  }

  // The ids fit their array, or run into the offsets by whole offsets, or end
  // in the middle of an offset whose halves read the same both ways.
  predicate Restorable(s: seq<byte>, cap: nat, n: nat)
    requires 512 + 4 * cap + 8 * n <= |s|
  {
    n <= cap || forall j: nat :: j < n && EndsIn(cap, n, j) ==> OwnSwap(s, 512 + 4 * cap + 8 * j)
  }

  lemma AfterTwiceMoves(s: seq<byte>, cap: nat, n: nat, p: nat)
    requires 512 + 4 * cap + 8 * n <= |s| && p < |s|
    ensures var w := Source(cap, n, Source(cap, n, p));
      w < |s| && After(After(s, cap, n), cap, n)[p] == s[w]
  {
    hide After, Source;
    AfterMoves(After(s, cap, n), cap, n, p);
    AfterMoves(s, cap, n, Source(cap, n, p));
  }

  lemma OffsetRestored(s: seq<byte>, cap: nat, n: nat, j: nat)
    requires cap < n && EndsIn(cap, n, j) && 512 + 4 * cap + 8 * n <= |s|
    ensures var base := 512 + 4 * cap + 8 * j;
      Buffers.Part(After(After(s, cap, n), cap, n), base, 8) == SwapHalves(Buffers.Part(s, base, 8))
  {
    hide After, Source, SwapHalves;
    var u, base := After(After(s, cap, n), cap, n), 512 + 4 * cap + 8 * j;
    var g, h := Buffers.Part(s, base, 8), Buffers.Part(u, base, 8);
    forall q: nat | q < 8 ensures h[q] == g[if q < 4 then 3 - q else 11 - q] {
      OffsetByte(s, cap, n, j, q);
    }
    SwapHalvesIs(g, h);
  }

  // One byte of such an offset.
  lemma OffsetByte(s: seq<byte>, cap: nat, n: nat, j: nat, q: nat)
    requires cap < n && EndsIn(cap, n, j) && 512 + 4 * cap + 8 * n <= |s| && q < 8
    ensures var base := 512 + 4 * cap + 8 * j;
      base + 8 <= |s| && After(After(s, cap, n), cap, n)[base + q] == s[base + if q < 4 then 3 - q else 11 - q]
  {
    hide After, Source;
    AfterTwiceMoves(s, cap, n, 512 + 4 * cap + 8 * j + q);
    SourceOfOffsetTwice(cap, j, n, q);
  }

  lemma SwapHalvesIs(g: seq<byte>, h: seq<byte>)
    requires |g| == |h| == 8
    requires forall q :: 0 <= q < 8 ==> h[q] == g[if q < 4 then 3 - q else 11 - q]
    ensures h == SwapHalves(g)
  {
  }

  lemma ByteRestored(s: seq<byte>, cap: nat, n: nat, p: nat)
    requires n > cap && 512 + 4 * cap + 8 * n <= |s| && p < |s|
    requires Restorable(s, cap, n)
    ensures After(After(s, cap, n), cap, n)[p] == s[p]
  {
    hide After, Source, SwapHalves;
    if j: nat :| EndsIn(cap, n, j) && 512 + 4 * cap + 8 * j <= p < 520 + 4 * cap + 8 * j {
      var base := 512 + 4 * cap + 8 * j;
      OffsetRestored(s, cap, n, j);
      assert OwnSwap(s, base);
    } else {
      AfterTwiceMoves(s, cap, n, p);
      SourceTwice(cap, n, p);
    }
  }

  // Two passes over the elements restore the record exactly when it is restorable.
  lemma ElementsTwice(s: seq<byte>, cap: nat, n: nat)
    requires n > cap && 512 + 4 * cap + 8 * n <= |s|
    ensures After(After(s, cap, n), cap, n) == s <==> Restorable(s, cap, n)
  {
    hide After, SwapHalves;
    var u := After(After(s, cap, n), cap, n);
    if Restorable(s, cap, n) {
      forall p | 0 <= p < |s| ensures u[p] == s[p] {
        ByteRestored(s, cap, n, p);
      }
    } else {
      var j: nat :| j < n && EndsIn(cap, n, j) && !OwnSwap(s, 512 + 4 * cap + 8 * j);
      OffsetRestored(s, cap, n, j);
    }
  }
}
