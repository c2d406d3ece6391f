/** Stacks of RAID sets, of any depth: the sectors of the top table on the disks. */
module DmStack {
  import opened RaidSets
  import DmTable
  import opened DmMapping

  // A sector of a disk.
  datatype Place = Place(path: nat, sector: nat)

  // Every set is in shape, and the table of every subset is as long as the size its parent relied on.
  ghost predicate Sane(rs: RaidSet)
    decreases rs
  {
    Shaped(rs) && forall i :: 0 <= i < |rs.sets| ==> Sane(rs.sets[i]) && Length(rs.sets[i]) >= Total(rs.sets[i])
  }

  // The components that hold a sector of a set.
  ghost function Where(rs: RaidSet, s: nat): (ts: seq<DmTable.Target>)
    requires Sane(rs) && s < Length(rs)
    ensures MapsInto(rs, s, ts)
  {
    MapSet(rs, s);
    Targets(rs, s)
  }

  // Where a sector of a set ends up, through all the tables below.
  ghost predicate Hits(rs: RaidSet, s: nat, p: Place)
    requires Sane(rs) && s < Length(rs)
    decreases rs
  {
    exists j :: 0 <= j < |Where(rs, s)| && HitsComp(rs, Where(rs, s)[j], p)
  }

  ghost predicate HitsComp(rs: RaidSet, t: DmTable.Target, p: Place)
    requires Sane(rs) && t.comp < Count(rs) && t.offset < SizeOf(rs, t.comp)
    decreases rs, 0
  {
    if t.comp < |rs.sets| then Hits(rs.sets[t.comp], t.offset, p)
    else
      var d := rs.devs[t.comp - |rs.sets|];
      p == Place(d.path, d.offset + t.offset)
  }

  // The parts of disks that belong to a component, and to a set.
  ghost predicate OwnsComp(rs: RaidSet, i: nat, p: Place)
    requires i < Count(rs)
    decreases rs, 0
  {
    if i < |rs.sets| then Owns(rs.sets[i], p)
    else
      var d := rs.devs[i - |rs.sets|];
      p.path == d.path && d.offset <= p.sector < d.offset + d.sectors
  }

  ghost predicate Owns(rs: RaidSet, p: Place)
    decreases rs, 1
  {
    exists i :: 0 <= i < Count(rs) && OwnsComp(rs, i, p)
  }

  // No two parts of disks overlap.
  ghost predicate Separate(rs: RaidSet)
    decreases rs
  {
    && (forall i, j, p :: 0 <= i < j < Count(rs) ==> !(OwnsComp(rs, i, p) && OwnsComp(rs, j, p)))
    && forall i :: 0 <= i < |rs.sets| ==> Separate(rs.sets[i])
  }

  /** Every sector of the top set resolves to sectors inside its disks' parts. */
  lemma {:induction false} ResolvesInside(rs: RaidSet, s: nat, p: Place)
    requires Sane(rs) && s < Length(rs) && Hits(rs, s, p)
    ensures Owns(rs, p)
    decreases rs
  {
    hide Shaped, Inverse, Length, SizeOf, HitsComp, Where;
    var j :| 0 <= j < |Where(rs, s)| && HitsComp(rs, Where(rs, s)[j], p);
    HitIsOwned(rs, Where(rs, s)[j], p);
  }

  lemma {:induction false} HitIsOwned(rs: RaidSet, t: DmTable.Target, p: Place)
    requires Sane(rs) && t.comp < Count(rs) && t.offset < SizeOf(rs, t.comp) && HitsComp(rs, t, p)
    ensures OwnsComp(rs, t.comp, p)
    decreases rs, 0
  {
    hide Shaped, Table, Length, Hits, Owns;
    if t.comp < |rs.sets| {
      ResolvesInside(rs.sets[t.comp], t.offset, p);
    }
  }

  /** Every sector of the top set resolves to at least one place. */
  lemma {:induction false} ResolvesSomewhere(rs: RaidSet, s: nat) returns (p: Place)
    requires Sane(rs) && s < Length(rs)
    ensures Hits(rs, s, p)
    decreases rs
  {
    hide Shaped, Inverse, Length, SizeOf, HitsComp, Where;
    var t := Where(rs, s)[0];
    p := HitsSome(rs, t);
  }

  lemma {:induction false} HitsSome(rs: RaidSet, t: DmTable.Target) returns (p: Place)
    requires Sane(rs) && t.comp < Count(rs) && t.offset < SizeOf(rs, t.comp)
    ensures HitsComp(rs, t, p)
    decreases rs, 0
  {
    hide Shaped, Table, Length, Hits, Owns;
    if t.comp < |rs.sets| {
      p := ResolvesSomewhere(rs.sets[t.comp], t.offset);
    } else {
      var d := rs.devs[t.comp - |rs.sets|];
      p := Place(d.path, d.offset + t.offset);
    }
  }

  /** Two different sectors of the top set never share a sector of a disk. */
  lemma {:induction false} ResolvesApart(rs: RaidSet, a: nat, b: nat, p: Place)
    requires Sane(rs) && Separate(rs) && a < Length(rs) && b < Length(rs) && a != b
    ensures !(Hits(rs, a, p) && Hits(rs, b, p))
    decreases rs
  {
    hide Shaped, Inverse, Length, SizeOf, Separate, HitsComp, Where;
    if Hits(rs, a, p) && Hits(rs, b, p) {
      var i :| 0 <= i < |Where(rs, a)| && HitsComp(rs, Where(rs, a)[i], p);
      var j :| 0 <= j < |Where(rs, b)| && HitsComp(rs, Where(rs, b)[j], p);
      TargetsApart(rs, Where(rs, a)[i], Where(rs, b)[j], p);
    }
  }

  lemma {:induction false} TargetsApart(rs: RaidSet, t: DmTable.Target, u: DmTable.Target, p: Place)
    requires Sane(rs) && Separate(rs) && t != u
    requires t.comp < Count(rs) && t.offset < SizeOf(rs, t.comp)
    requires u.comp < Count(rs) && u.offset < SizeOf(rs, u.comp)
    ensures !(HitsComp(rs, t, p) && HitsComp(rs, u, p))
    decreases rs, 0
  {
    hide Shaped, Table, Length, Hits, Owns;
    if HitsComp(rs, t, p) && HitsComp(rs, u, p) {
      HitIsOwned(rs, t, p);
      HitIsOwned(rs, u, p);
      if t.comp == u.comp && t.comp < |rs.sets| {
        ResolvesApart(rs.sets[t.comp], t.offset, u.offset, p);
      }
    }
  }
}
