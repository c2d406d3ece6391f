/** Pieces of byte buffers, and overwriting them. */
module Buffers {
  import opened Bits

  function Part(s: seq<byte>, off: nat, size: nat): (r: seq<byte>)
    requires off + size <= |s|
    ensures |r| == size
  {
    s[off..off + size]
  }

  function Splice(s: seq<byte>, off: nat, t: seq<byte>): (r: seq<byte>)
    requires off + |t| <= |s|
    ensures |r| == |s|
    ensures forall k {:trigger r[k]} :: 0 <= k < |s| ==> r[k] == if off <= k < off + |t| then t[k - off] else s[k]
  {
    s[..off] + t + s[off + |t|..]
  }

  lemma SpliceTwice(s: seq<byte>, off: nat, t: seq<byte>, u: seq<byte>)
    requires off + |t| <= |s| && |t| == |u|
    ensures Splice(Splice(s, off, t), off, u) == Splice(s, off, u)
  {
  }

  lemma SplicesCommute(s: seq<byte>, a: nat, t: seq<byte>, b: nat, u: seq<byte>)
    requires a + |t| <= |s| && b + |u| <= |s| && (a + |t| <= b || b + |u| <= a)
    ensures Splice(Splice(s, a, t), b, u) == Splice(Splice(s, b, u), a, t)
  {
  }

  lemma PartOfPart(s: seq<byte>, base: nat, size: nat, off: nat, n: nat)
    requires base + size <= |s| && off + n <= size
    ensures Part(Part(s, base, size), off, n) == Part(s, base + off, n)
  {
    var p, q := Part(Part(s, base, size), off, n), Part(s, base + off, n);
    assert forall k :: 0 <= k < n ==> p[k] == Part(s, base, size)[off + k] == q[k];
  }

  lemma PartOfSplice(s: seq<byte>, base: nat, t: seq<byte>)
    requires base + |t| <= |s|
    ensures Part(Splice(s, base, t), base, |t|) == t
  {
  }

  lemma SliceOfSplice(s: seq<byte>, off: nat, t: seq<byte>)
    requires off + |t| <= |s|
    ensures var r := Splice(s, off, t);
      r[off..off + |t|] == t && r[..off] == s[..off] && r[off + |t|..] == s[off + |t|..]
  {
  }

  lemma SplicePart(s: seq<byte>, base: nat, size: nat)
    requires base + size <= |s|
    ensures Splice(s, base, Part(s, base, size)) == s
  {
  }

  lemma SliceOfPrefix(s: seq<byte>, n: nat, a: nat, b: nat)
    requires a <= b <= n <= |s|
    ensures s[..n][a..b] == s[a..b]
  {
  }

  lemma KeepTail(s: seq<byte>, r: seq<byte>, a: nat, b: nat)
    requires a <= b <= |s| == |r| && s[a..] == r[a..]
    ensures s[b..] == r[b..]
  {
    assert s[b..] == s[a..][b - a..];
    assert r[b..] == r[a..][b - a..];
  }

  lemma SliceOfSlice(s: seq<byte>, m: nat, n: nat, a: nat, b: nat)
    requires m + n <= |s| && a <= b <= n
    ensures s[m..m + n][a..b] == s[m + a..m + b]
  {
    var p, q := s[m..m + n][a..b], s[m + a..m + b];
    assert forall k :: 0 <= k < b - a ==> p[k] == s[m + a + k] == q[k];
  }

  // Store bytes at an offset.
  method Overwrite(a: array<byte>, off: nat, t: seq<byte>)
    requires off + |t| <= a.Length
    modifies a
    ensures a[..] == Splice(old(a[..]), off, t)
  {
    ghost var s := a[..];
    var i := 0;
    while i < |t|
      invariant 0 <= i <= |t|
      invariant forall k :: 0 <= k < a.Length ==> a[k] == if off <= k < off + i then t[k - off] else s[k]
    {
      a[off + i] := t[i];
      i := i + 1;
    }
  }

}
