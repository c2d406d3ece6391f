/** In-place byte order conversion of the fields of a byte buffer: what the
    CVT16, CVT32 and CVT64 lines of lib/format/ddf/ddf1_cvt.c do, applied in
    the order in which they are written.
 */
module Ddf1Fields {
  import opened Bits
  import opened ByteOrder
  import opened Buffers

  // A field of a packed structure and the width of the macro applied to it.
  datatype Field = Field(off: nat, size: nat, width: Width)

  predicate Exact(f: Field) {
    f.size == f.width
  }

  // CVT32 applied to a uint16_t.
  predicate Narrow(f: Field) {
    f.size == 2 && f.width == 4
  }

  predicate Usable(f: Field, len: nat) {
    f.off + f.size <= len && (Exact(f) || Narrow(f))
  }

  predicate AllUsable(fs: seq<Field>, len: nat) {
    forall f :: f in fs ==> Usable(f, len)
  }

  predicate Apart(f: Field, g: Field) {
    f.off + f.size <= g.off || g.off + g.size <= f.off
  }

  predicate AllApart(f: Field, fs: seq<Field>) {
    forall g :: g in fs ==> Apart(f, g)
  }

  predicate Disjoint(fs: seq<Field>) {
    forall i, j :: 0 <= i < j < |fs| ==> Apart(fs[i], fs[j])
  }

  function CvtField(s: seq<byte>, f: Field): (r: seq<byte>)
    requires Usable(f, |s|)
    ensures |r| == |s|
  {
    Splice(s, f.off, Swapped(Part(s, f.off, f.size), f.width))
  }

  function CvtFields(s: seq<byte>, fs: seq<Field>): (r: seq<byte>)
    requires AllUsable(fs, |s|)
    ensures |r| == |s|
    decreases fs
  {
    if fs == [] then s else CvtFields(CvtField(s, fs[0]), fs[1..])
  }

  function NarrowOnly(fs: seq<Field>): (r: seq<Field>)
    ensures forall f :: f in r ==> f in fs && !Exact(f)
  {
    if fs == [] then []
    else if Exact(fs[0]) then NarrowOnly(fs[1..])
    else [fs[0]] + NarrowOnly(fs[1..])
  }

  lemma {:induction false} NarrowOnlyDisjoint(fs: seq<Field>)
    requires Disjoint(fs)
    ensures Disjoint(NarrowOnly(fs))
    decreases fs
  {
    if fs != [] {
      DisjointTail(fs);
      NarrowOnlyDisjoint(fs[1..]);
      var rest := NarrowOnly(fs[1..]);
      assert forall i :: 0 <= i < |rest| ==> rest[i] in rest;
    }
  }

  // ------------------------------------------------------------- one field

  lemma CvtFieldElsewhere(s: seq<byte>, f: Field, off: nat, size: nat)
    requires Usable(f, |s|) && off + size <= |s|
    requires f.off + f.size <= off || off + size <= f.off
    ensures Part(CvtField(s, f), off, size) == Part(s, off, size)
  {
  }

  lemma CvtFieldsCommute(s: seq<byte>, f: Field, g: Field)
    requires Usable(f, |s|) && Usable(g, |s|) && Apart(f, g)
    ensures CvtField(CvtField(s, f), g) == CvtField(CvtField(s, g), f)
  {
    CvtFieldElsewhere(s, f, g.off, g.size);
    CvtFieldElsewhere(s, g, f.off, f.size);
    SplicesCommute(s, f.off, Swapped(Part(s, f.off, f.size), f.width),
                   g.off, Swapped(Part(s, g.off, g.size), g.width));
  }

  // Twice is the identity on an exact field; a narrow one is cleared once and for all.
  lemma CvtFieldTwice(s: seq<byte>, f: Field)
    requires Usable(f, |s|)
    ensures CvtField(CvtField(s, f), f) == if Exact(f) then s else CvtField(s, f)
  {
    var p := Part(s, f.off, f.size);
    var c := Swapped(p, f.width);
    ReverseTwice(p);
    SpliceTwice(s, f.off, c, Swapped(c, f.width));
    assert Splice(s, f.off, p) == s;
  }

  // ----------------------------------------------------------- many fields

  lemma {:induction false} CvtFieldsConcat(s: seq<byte>, fs: seq<Field>, gs: seq<Field>)
    requires AllUsable(fs, |s|) && AllUsable(gs, |s|)
    ensures CvtFields(s, fs + gs) == CvtFields(CvtFields(s, fs), gs)
    decreases fs
  {
    if fs == [] {
      assert fs + gs == gs;
    } else {
      assert (fs + gs)[1..] == fs[1..] + gs;
      CvtFieldsConcat(CvtField(s, fs[0]), fs[1..], gs);
    }
  }

  lemma {:induction false} CvtFieldMovesPast(s: seq<byte>, f: Field, fs: seq<Field>)
    requires Usable(f, |s|) && AllUsable(fs, |s|) && AllApart(f, fs)
    ensures CvtFields(CvtField(s, f), fs) == CvtField(CvtFields(s, fs), f)
    decreases fs
  {
    if fs != [] {
      CvtFieldsCommute(s, f, fs[0]);
      CvtFieldMovesPast(CvtField(s, fs[0]), f, fs[1..]);
    }
  }

  lemma {:induction false} CvtFieldsMovePast(s: seq<byte>, fs: seq<Field>, gs: seq<Field>)
    requires AllUsable(fs, |s|) && AllUsable(gs, |s|)
    requires forall f :: f in fs ==> AllApart(f, gs)
    ensures CvtFields(CvtFields(s, fs), gs) == CvtFields(CvtFields(s, gs), fs)
    decreases fs
  {
    if fs != [] {
      CvtFieldsMovePast(CvtField(s, fs[0]), fs[1..], gs);
      CvtFieldMovesPast(s, fs[0], gs);
    }
  }

  lemma {:induction false} CvtFieldsElsewhere(s: seq<byte>, fs: seq<Field>, off: nat, size: nat)
    requires AllUsable(fs, |s|) && off + size <= |s|
    requires forall f :: f in fs ==> f.off + f.size <= off || off + size <= f.off
    ensures Part(CvtFields(s, fs), off, size) == Part(s, off, size)
    decreases fs
  {
    if fs != [] {
      CvtFieldElsewhere(s, fs[0], off, size);
      CvtFieldsElsewhere(CvtField(s, fs[0]), fs[1..], off, size);
    }
  }

  lemma DisjointTail(fs: seq<Field>)
    requires Disjoint(fs) && fs != []
    ensures Disjoint(fs[1..]) && AllApart(fs[0], fs[1..])
  {
    forall g | g in fs[1..] ensures Apart(fs[0], g) {
      var i :| 0 <= i < |fs[1..]| && fs[1..][i] == g;
      assert fs[i + 1] == g;
    }
  }

  /** Converting disjoint fields twice gives the buffer back, except that the
      narrow fields end up cleared.
   */
  lemma {:induction false} CvtFieldsTwice(s: seq<byte>, fs: seq<Field>)
    requires AllUsable(fs, |s|) && Disjoint(fs)
    ensures CvtFields(CvtFields(s, fs), fs) == CvtFields(s, NarrowOnly(fs))
    decreases fs
  {
    if fs != [] {
      var f, rest := fs[0], fs[1..];
      DisjointTail(fs);
      CvtFieldMovesPast(s, f, rest);
      var once := CvtFields(s, rest);
      CvtFieldTwice(once, f);
      CvtFieldsTwice(s, rest);
      if !Exact(f) {
        CvtFieldMovesPast(once, f, rest);
        assert AllApart(f, NarrowOnly(rest));
        CvtFieldMovesPast(s, f, NarrowOnly(rest));
        assert NarrowOnly(fs)[1..] == NarrowOnly(rest);
      }
    }
  }

  lemma ClearedFieldIsIdle(s: seq<byte>, f: Field)
    requires Usable(f, |s|) && !Exact(f)
    ensures CvtField(s, f) == s <==> Part(s, f.off, f.size) == [0, 0]
  {
    assert Swapped(Part(s, f.off, f.size), f.width) == [0, 0];
    assert Splice(s, f.off, Part(s, f.off, f.size)) == s;
  }

  // Clearing the narrow fields changes nothing exactly when they hold zero.
  lemma {:induction false} ClearingIsIdle(s: seq<byte>, fs: seq<Field>)
    requires AllUsable(fs, |s|) && Disjoint(fs) && (forall f :: f in fs ==> !Exact(f))
    ensures CvtFields(s, fs) == s <==> forall f :: f in fs ==> Part(s, f.off, f.size) == [0, 0]
    decreases fs
  {
    if fs != [] {
      var f, rest := fs[0], fs[1..];
      DisjointTail(fs);
      CvtFieldMovesPast(s, f, rest);
      var once := CvtFields(s, rest);
      CvtFieldsElsewhere(s, rest, f.off, f.size);
      assert Part(once, f.off, f.size) == Part(s, f.off, f.size);
      assert CvtFields(s, fs) == CvtField(once, f);
      ClearedFieldIsIdle(once, f);
      ClearingIsIdle(s, rest);
      if CvtFields(s, fs) == s {
        CvtFieldTwice(once, f);
        assert once == s;
      }
    }
  }

  // ------------------------------------------- a structure inside a buffer

  function Shift(fs: seq<Field>, base: nat): (r: seq<Field>)
    ensures |r| == |fs| && forall i :: 0 <= i < |fs| ==> r[i] == fs[i].(off := base + fs[i].off)
  {
    seq(|fs|, i requires 0 <= i < |fs| => fs[i].(off := base + fs[i].off))
  }

  lemma CvtFieldShifted(s: seq<byte>, f: Field, base: nat, size: nat)
    requires base + size <= |s| && Usable(f, size)
    ensures Usable(f.(off := base + f.off), |s|)
    ensures CvtField(s, f.(off := base + f.off)) == Splice(s, base, CvtField(Part(s, base, size), f))
  {
    hide Splice, Swapped;
    PartOfPart(s, base, size, f.off, f.size);
  }

  lemma ShiftUsable(fs: seq<Field>, base: nat, size: nat, len: nat)
    requires base + size <= len && AllUsable(fs, size)
    ensures AllUsable(Shift(fs, base), len)
  {
    forall g | g in Shift(fs, base) ensures Usable(g, len) {
      var i :| 0 <= i < |fs| && g == Shift(fs, base)[i];
      assert Usable(fs[i], size);
    }
  }

  // Converting a structure in place is converting the bytes it occupies.
  lemma {:induction false} CvtFieldsShifted(s: seq<byte>, fs: seq<Field>, base: nat, size: nat)
    requires base + size <= |s| && AllUsable(fs, size)
    ensures AllUsable(Shift(fs, base), |s|)
    ensures CvtFields(s, Shift(fs, base))
         == Splice(s, base, CvtFields(Part(s, base, size), fs))
    decreases fs
  {
    hide CvtField, Splice, Part;
    ShiftUsable(fs, base, size, |s|);
    if fs == [] {
      assert Shift(fs, base) == [];
      SplicePart(s, base, size);
    } else {
      var p := CvtField(Part(s, base, size), fs[0]);
      var t := Splice(s, base, p);
      var all, rest := Shift(fs, base), Shift(fs[1..], base);
      assert t == CvtField(s, all[0]) by {
        CvtFieldShifted(s, fs[0], base, size);
      }
      assert all[1..] == rest;
      assert CvtFields(s, all) == CvtFields(t, rest);
      assert CvtFields(t, rest) == Splice(t, base, CvtFields(p, fs[1..])) by {
        PartOfSplice(s, base, p);
        CvtFieldsShifted(t, fs[1..], base, size);
      }
      SpliceTwice(s, base, p, CvtFields(p, fs[1..]));
    }
  }
}
