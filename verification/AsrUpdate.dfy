/** Bringing the tables of an Adaptec HostRAID set up to date with its drives,
    update_metadata of lib/format/ataraid/asr.c, for RAID 0 and 1.
 */
module AsrUpdate {
  import opened AsrTable
  import opened Optional

  type Table = seq<Line>

  // -------------------------------------------------------- the newest drive

  function Max(a: nat, b: nat): nat {
    if a < b then b else a
  }

  // The highest sequence number of a table, and of all of them.
  function Top(lines: Table): nat {
    if lines == [] then 0 else Max(Top(lines[..|lines| - 1]), lines[|lines| - 1].sequence)
  }

  function Best(tables: seq<Table>): (n: nat)
    ensures (forall i :: 0 <= i < |tables| ==> tables[i] == []) ==> n == 0
  {
    if tables == [] then 0 else Max(Best(tables[..|tables| - 1]), Top(tables[|tables| - 1]))
  }

  // find_newest_drive
  function Newest(tables: seq<Table>): (r: Option<nat>)
    ensures r.None? <==> forall i :: 0 <= i < |tables| ==> tables[i] == []
    ensures r.Some? ==> r.value < |tables| && tables[r.value] != []
  {
    if tables == [] then None
    else
      var rest, last := tables[..|tables| - 1], tables[|tables| - 1];
      assert tables == rest + [last];
      if last != [] && Best(rest) <= Top(last) then Some(|rest|) else Newest(rest)
  }

  lemma {:induction false} BestIs(tables: seq<Table>)
    ensures forall i :: 0 <= i < |tables| ==> Top(tables[i]) <= Best(tables)
  {
    if tables != [] {
      var rest := tables[..|tables| - 1];
      BestIs(rest);
      assert forall i :: 0 <= i < |rest| ==> tables[i] == rest[i];
    }
  }

  lemma BestOfEmpty(tables: seq<Table>, last: Table)
    requires last == [] || Top(last) < Best(tables)
    ensures Max(Best(tables), Top(last)) == Best(tables)
  {
  }

  /** The newest drive has a line of the highest sequence number, and is the last one that
      has such a line.
   */
  lemma {:induction false} NewestIs(tables: seq<Table>)
    requires Newest(tables).Some?
    ensures Top(tables[Newest(tables).value]) == Best(tables)
    ensures forall i :: 0 <= i < |tables| ==> Top(tables[i]) <= Best(tables)
    ensures forall i :: Newest(tables).value < i < |tables| && tables[i] != [] ==> Top(tables[i]) < Best(tables)
  {
    hide Newest, Best, Top;
    BestIs(tables);
    var n := |tables| - 1;
    var rest, last := tables[..n], tables[n];
    assert tables[..n + 1] == tables;
    NewestStep(tables, n);
    if !(last != [] && Best(rest) <= Top(last)) {
      NewestIs(rest);
      assert forall i :: 0 <= i < n ==> tables[i] == rest[i];
      BestOfEmpty(rest, last);
    }
  }

  ghost predicate Fleet(drives: seq<Asr>)
    reads (set d | d in drives)`elmcnt
  {
    && (forall i :: 0 <= i < |drives| ==> drives[i].Valid())
    && forall i, j :: 0 <= i < j < |drives| ==> drives[i] != drives[j] && drives[i].ent != drives[j].ent
  }

  ghost function Tables(drives: seq<Asr>): (r: seq<Table>)
    requires Fleet(drives)
    reads (set d | d in drives)`elmcnt, set i | 0 <= i < |drives| :: drives[i].ent
    ensures |r| == |drives| && forall i :: 0 <= i < |r| ==> r[i] == drives[i].Lines()
  {
    if drives == [] then [] else Tables(drives[..|drives| - 1]) + [drives[|drives| - 1].Lines()]
  }

  lemma TopStep(lines: Table, j: nat)
    requires j < |lines|
    ensures Top(lines[..j + 1]) == Max(Top(lines[..j]), lines[j].sequence)
  {
    assert lines[..j + 1][..j] == lines[..j];
  }

  // The state of the search when a table has been read.
  lemma NewestStep(tables: seq<Table>, i: nat)
    requires i < |tables|
    ensures Best(tables[..i + 1]) == Max(Best(tables[..i]), Top(tables[i]))
    ensures Newest(tables[..i + 1])
         == if tables[i] != [] && Best(tables[..i]) <= Top(tables[i]) then Some(i) else Newest(tables[..i])
  {
    assert tables[..i + 1][..i] == tables[..i];
  }

  method FindNewest(drives: seq<Asr>) returns (r: Option<nat>)
    requires Fleet(drives)
    ensures r == Newest(Tables(drives))
  {
    hide Newest, Best, Top;
    r := None;
    var highest: nat := 0;
    ghost var tables := Tables(drives);
    NothingFound(tables);
    for i := 0 to |drives|
      invariant r == Newest(tables[..i]) && highest == Best(tables[..i])
    {
      var d := drives[i];
      ghost var before, best := r, highest;
      NothingRead(tables[i]);
      for j := 0 to d.elmcnt
        invariant highest == Max(best, Top(tables[i][..j]))
        invariant r == if j > 0 && best <= Top(tables[i][..j]) then Some(i) else before
      {
        TopStep(tables[i], j);
        assert tables[i][j] == d.ent[j];
        if d.ent[j].sequence >= highest {
          highest := d.ent[j].sequence;
          r := Some(i);
        }
      }
      assert tables[i][..d.elmcnt] == tables[i];
      NewestStep(tables, i);
    }
    assert tables[..|drives|] == tables;
  }

  lemma NothingFound(tables: seq<Table>)
    ensures Newest(tables[..0]) == None && Best(tables[..0]) == 0
  {
  }

  lemma NothingRead(lines: Table)
    ensures Top(lines[..0]) == 0
  {
  }

  // ------------------------------------------------------ the update of a table

  // at is the drive that is written.
  datatype Job = Job(at: nat, random: nat, t: SetType, name: string)

  predicate JobOk(job: Job, tables: seq<Table>) {
    job.at < |tables| && tables[job.at] != [] && job.t != Other
  }

  function Assign(magic: nat, random: nat): nat {
    if magic == NO_MAGIC then random else magic
  }

  predicate IsSpare(lines: Table, magic: nat) {
    var k := LastOf(lines, magic);
    k < |lines| && lines[k].kind == ASR_RAIDSPR
  }

  // The table that the update starts from: the drive's own table or, for a drive that was
  // a spare, that of the newest drive.
  function Started(tables: seq<Table>, at: nat, magic: nat): Table
    requires at < |tables|
  {
    if IsSpare(tables[at], magic) then tables[Newest(tables).value] else tables[at]
  }

  // raidseq of the top level line
  function Topped(lines: Table): (r: Table)
    requires Toplevel(lines) < |lines|
    ensures |r| == |lines|
  {
    var k := Toplevel(lines);
    lines[k := Bump(lines[k])]
  }

  // One member: its line is bumped, or added while there is room.
  function AfterMember(tables: seq<Table>, job: Job, magic: nat): (r: seq<Table>)
    requires JobOk(job, tables)
    ensures JobOk(job, r) && |r| == |tables| && r == tables[job.at := r[job.at]]
  {
    var lines := tables[job.at];
    var k := LastOf(lines, magic);
    if k < |lines| then tables[job.at := lines[k := Bump(lines[k])]]
    else if |lines| >= MAX_ENTRIES then tables
    else
      var first := tables[Newest(tables).value][0];
      tables[job.at := lines + [NewLine(Assign(magic, job.random), job.t, job.name, first)]]
  }

  // The magic number of the member then.
  function MagicAfter(lines: Table, magic: nat, random: nat): nat {
    if LastOf(lines, magic) < |lines| then magic else Assign(magic, random)
  }

  function AfterMembers(tables: seq<Table>, job: Job, magics: seq<nat>): (r: seq<Table>)
    requires JobOk(job, tables)
    ensures JobOk(job, r) && |r| == |tables| && r == tables[job.at := r[job.at]]
  {
    if magics == [] then tables
    else AfterMember(AfterMembers(tables, job, magics[..|magics| - 1]), job, magics[|magics| - 1])
  }

  function NewMagics(tables: seq<Table>, job: Job, magics: seq<nat>): (r: seq<nat>)
    requires JobOk(job, tables)
    ensures |r| == |magics|
  {
    if magics == [] then []
    else
      var before, m := magics[..|magics| - 1], magics[|magics| - 1];
      NewMagics(tables, job, before) + [MagicAfter(AfterMembers(tables, job, before)[job.at], m, job.random)]
  }

  function Cleaned(tables: seq<Table>, members: seq<nat>): (r: seq<Table>)
    ensures |r| == |tables| && forall i :: 0 <= i < |r| ==> r[i] == Filter(tables[i], members)
  {
    seq(|tables|, i requires 0 <= i < |tables| => Filter(tables[i], members))
  }

  // ---------------------------------------------------------- on the drives

  method BumpLine(asr: Asr, k: nat)
    requires asr.Valid() && k < asr.elmcnt
    modifies asr.ent
    ensures asr.Lines() == old(asr.Lines()[k := Bump(asr.Lines()[k])])
  {
    asr.ent[k] := Bump(asr.ent[k]);
  }

  // A change of one drive, seen on all tables.
  lemma OneChanged(tables: seq<Table>, drives: seq<Asr>, at: nat)
    requires Fleet(drives) && |tables| == |drives| && at < |drives|
    requires forall i :: 0 <= i < |drives| && i != at ==> drives[i].Lines() == tables[i]
    ensures Tables(drives) == tables[at := drives[at].Lines()]
  {
  }

  method BumpMember(asr: Asr, drives: seq<Asr>, at: nat, k: nat)
    requires Fleet(drives) && at < |drives| && drives[at] == asr && k < asr.elmcnt
    modifies asr.ent
    ensures Fleet(drives)
    ensures var t := old(Tables(drives)); k < |t[at]| && Tables(drives) == t[at := t[at][k := Bump(t[at][k])]]
  {
    hide Tables;
    ghost var tables := Tables(drives);
    BumpLine(asr, k);
    OneChanged(tables, drives, at);
  }

  // create_configline, with the first line of the newest drive
  method AddMember(asr: Asr, magic: nat, drives: seq<Asr>, job: Job)
    requires Fleet(drives) && JobOk(job, Tables(drives)) && drives[job.at] == asr
    modifies asr`elmcnt, asr.ent
    ensures Fleet(drives)
    ensures var t := old(Tables(drives));
      var lines := t[job.at];
      Tables(drives) == if |lines| >= MAX_ENTRIES then t
                        else t[job.at := lines + [NewLine(magic, job.t, job.name, t[Newest(t).value][0])]]
  {
    hide Newest, Tables;
    ghost var tables := Tables(drives);
    var newest := FindNewest(drives);
    var first := drives[newest.value].ent[0];
    assert first == tables[newest.value][0];
    var ok := asr.CreateConfigline(magic, job.t, job.name, first);
    OneChanged(tables, drives, job.at);
  }

  method UpdateMember(asr: Asr, d: Asr, drives: seq<Asr>, job: Job)
    requires Fleet(drives) && JobOk(job, Tables(drives)) && drives[job.at] == asr && d in drives
    modifies d`magic, asr`elmcnt, asr.ent
    ensures Fleet(drives) && Tables(drives) == AfterMember(old(Tables(drives)), job, old(d.magic))
    ensures d.magic == MagicAfter(old(asr.Lines()), old(d.magic), job.random)
  {
    hide Newest, LastOf, Tables;
    var cl := asr.GetConfig(d.magic);
    if cl.Some? {
      BumpMember(asr, drives, job.at, cl.value);
    } else {
      if d.magic == NO_MAGIC {
        d.magic := job.random;
      }
      AddMember(asr, d.magic, drives, job);
    }
  }

  function Magics(drives: seq<Asr>): (r: seq<nat>)
    reads (set d | d in drives)`magic
    ensures |r| == |drives| && forall i :: 0 <= i < |r| ==> r[i] == drives[i].magic
  {
    if drives == [] then [] else Magics(drives[..|drives| - 1]) + [drives[|drives| - 1].magic]
  }

  lemma LastMember(tables: seq<Table>, job: Job, magics: seq<nat>, i: nat)
    requires JobOk(job, tables) && i < |magics|
    ensures AfterMembers(tables, job, magics[..i + 1])
      == AfterMember(AfterMembers(tables, job, magics[..i]), job, magics[i])
    ensures NewMagics(tables, job, magics[..i + 1])
         == NewMagics(tables, job, magics[..i])
            + [MagicAfter(AfterMembers(tables, job, magics[..i])[job.at], magics[i], job.random)]
  {
    assert magics[..i + 1][..i] == magics[..i];
  }

  // The loop over the drives of the set.
  method UpdateMembers(asr: Asr, drives: seq<Asr>, job: Job, ghost tables: seq<Table>, ghost magics: seq<nat>)
    requires Fleet(drives) && JobOk(job, Tables(drives)) && drives[job.at] == asr
    requires tables == Tables(drives) && magics == Magics(drives)
    modifies (set d | d in drives)`magic, asr`elmcnt, asr.ent
    ensures Fleet(drives) && Tables(drives) == AfterMembers(tables, job, magics)
    ensures Magics(drives) == NewMagics(tables, job, magics)
  {
    hide Tables, AfterMember, AfterMembers, MagicAfter, NewMagics, Magics;
    StartOfMembers(tables, job, magics);
    for i := 0 to |drives|
      invariant Fleet(drives) && Tables(drives) == AfterMembers(tables, job, magics[..i])
      invariant forall k :: 0 <= k < i ==> drives[k].magic == NewMagics(tables, job, magics[..i])[k]
      invariant forall k :: i <= k < |drives| ==> drives[k].magic == magics[k]
    {
      LastMember(tables, job, magics, i);
      UpdateMember(asr, drives[i], drives, job);
    }
    assert magics[..|drives|] == magics;
  }

  lemma StartOfMembers(tables: seq<Table>, job: Job, magics: seq<nat>)
    requires JobOk(job, tables)
    ensures AfterMembers(tables, job, magics[..0]) == tables
  {
  }

  // type(this_disk(asr)) == t_spare
  method IsSpareDisk(asr: Asr) returns (b: bool)
    requires asr.Valid()
    ensures b == IsSpare(asr.Lines(), asr.magic)
  {
    var cl := asr.GetConfig(asr.magic);
    b := cl.Some? && asr.ent[cl.value].kind == ASR_RAIDSPR;
  }

  // The magic number of the drive that is written.
  method AssignOwn(asr: Asr, drives: seq<Asr>, at: nat, random: nat)
    requires Fleet(drives) && at < |drives| && drives[at] == asr
    modifies asr`magic
    ensures asr.magic == Assign(old(asr.magic), random)
    ensures Magics(drives) == old(Magics(drives))[at := asr.magic]
  {
    hide Magics;
    if asr.magic == NO_MAGIC {
      asr.magic := random;
    }
  }

  // The table of the newest drive replaces that of a spare.
  method CopyTable(asr: Asr, newest: Asr)
    requires asr.Valid() && newest.Valid() && (asr == newest || asr.ent != newest.ent)
    modifies asr`elmcnt, asr.ent
    ensures asr.Valid() && asr.Lines() == old(newest.Lines())
  {
    var n := newest.elmcnt;
    ghost var lines := newest.Lines();
    asr.elmcnt := n;
    for k := 0 to n
      invariant asr.elmcnt == n <= MAX_ENTRIES
      invariant forall j :: 0 <= j < k ==> asr.ent[j] == lines[j]
      invariant forall j :: 0 <= j < n ==> newest.ent[j] == lines[j]
    {
      asr.ent[k] := newest.ent[k];
    }
  }

  // raidseq of the top level line
  method BumpToplevel(asr: Asr)
    requires asr.Valid() && Toplevel(asr.Lines()) < |asr.Lines()|
    modifies asr.ent
    ensures asr.Lines() == Topped(old(asr.Lines()))
  {
    var top := asr.FindToplevel();
    BumpLine(asr, top.value);
  }

  // cleanup_configlines over the tables of all members.
  method CleanupAll(drives: seq<Asr>)
    requires Fleet(drives)
    modifies (set d | d in drives)`elmcnt, set i | 0 <= i < |drives| :: drives[i].ent
    ensures Fleet(drives) && Tables(drives) == Cleaned(old(Tables(drives)), Magics(drives))
  {
    hide Filter, Keeps, Magics, Tables;
    var members := ReadMagics(drives);
    for i := 0 to |drives|
      invariant Fleet(drives) && members == Magics(drives)
      invariant forall k :: 0 <= k < |drives| ==>
        drives[k].Lines() == if k < i then Filter(old(drives[k].Lines()), members) else old(drives[k].Lines())
    {
      drives[i].Cleanup(members);
    }
  }

  method ReadMagics(drives: seq<Asr>) returns (r: seq<nat>)
    ensures r == Magics(drives)
  {
    r := Magics(drives);
  }

  // The table that the update starts from, with its top level line bumped.
  function Prepared(tables: seq<Table>, at: nat, magic: nat): (r: seq<Table>)
    requires at < |tables| && Toplevel(Started(tables, at, magic)) < |Started(tables, at, magic)|
    ensures |r| == |tables| && r[at] != [] && r == tables[at := r[at]]
  {
    tables[at := Topped(Started(tables, at, magic))]
  }

  method Prepare(asr: Asr, newest: Asr, drives: seq<Asr>, at: nat)
    requires Fleet(drives) && at < |drives| && drives[at] == asr && newest in drives
    requires Newest(Tables(drives)).Some? && newest == drives[Newest(Tables(drives)).value]
    requires var lines := Started(Tables(drives), at, asr.magic); Toplevel(lines) < |lines|
    modifies asr`elmcnt, asr.ent
    ensures Fleet(drives) && Tables(drives) == Prepared(old(Tables(drives)), at, asr.magic)
  {
    hide Tables, Newest, Toplevel, IsSpare;
    ghost var tables := Tables(drives);
    var spare := IsSpareDisk(asr);
    if spare {
      CopyTable(asr, newest);
    }
    BumpToplevel(asr);
    OneChanged(tables, drives, at);
  }

  ghost predicate Usable(tables: seq<Table>, at: nat, magic: nat)
    requires at < |tables|
  {
    Newest(tables).Some? ==> var lines := Started(tables, at, magic); Toplevel(lines) < |lines|
  }

  lemma HasJob(tables: seq<Table>, job: Job)
    requires job.at < |tables| && tables[job.at] != [] && job.t != Other
    ensures JobOk(job, tables)
  {
  }

  // The update when there is a newest drive.
  method UpdateFrom(asr: Asr, newest: Asr, drives: seq<Asr>, job: Job)
    requires Fleet(drives) && job.at < |drives| && drives[job.at] == asr && job.t != Other && newest in drives
    requires Newest(Tables(drives)).Some? && newest == drives[Newest(Tables(drives)).value]
    requires var lines := Started(Tables(drives), job.at, asr.magic); Toplevel(lines) < |lines|
    modifies (set d | d in drives)`magic, (set d | d in drives)`elmcnt, set i | 0 <= i < |drives| :: drives[i].ent
    ensures Fleet(drives)
    ensures var tables := Prepared(old(Tables(drives)), job.at, old(asr.magic));
      && Magics(drives) == NewMagics(tables, job, old(Magics(drives)))
      && Tables(drives) == Cleaned(AfterMembers(tables, job, old(Magics(drives))), Magics(drives))
  {
    hide *;
    ghost var magics, before := Magics(drives), Tables(drives);
    Prepare(asr, newest, drives, job.at);
    ghost var tables := Tables(drives);
    assert Magics(drives) == magics && tables == Prepared(before, job.at, magics[job.at]);
    HasJob(tables, job);
    UpdateMembers(asr, drives, job, tables, magics);
    CleanupAll(drives);
  }

  /** update_metadata for a drive of a RAID 0 or 1 set. The table that is updated has a
      line of a logical drive.
   */
  method UpdateMetadata(asr: Asr, drives: seq<Asr>, job: Job) returns (ok: bool)
    requires Fleet(drives) && job.at < |drives| && drives[job.at] == asr && job.t != Other
    requires Usable(Tables(drives), job.at, Assign(asr.magic, job.random))
    modifies (set d | d in drives)`magic, (set d | d in drives)`elmcnt, set i | 0 <= i < |drives| :: drives[i].ent
    ensures Fleet(drives) && (ok <==> exists i :: 0 <= i < |drives| && old(Tables(drives))[i] != [])
    ensures !ok ==> Tables(drives) == old(Tables(drives)) && Magics(drives) == old(Magics(drives))
    ensures ok ==>
      var magics := old(Magics(drives))[job.at := Assign(old(asr.magic), job.random)];
      var tables := Prepared(old(Tables(drives)), job.at, magics[job.at]);
      && Magics(drives) == NewMagics(tables, job, magics)
      && Tables(drives) == Cleaned(AfterMembers(tables, job, magics), Magics(drives))
  {
    hide Newest, Tables, Magics, Prepared, AfterMembers, NewMagics, Cleaned, Toplevel, Started;
    var newest := FindNewest(drives);
    if newest.None? {
      return false;
    }
    AssignOwn(asr, drives, job.at, job.random);
    UpdateFrom(asr, drives[newest.value], drives, job);
    ok := true;
  }

  // ------------------------------------------------- what the update achieves

  predicate Has(lines: Table, magic: nat) {
    exists k :: 0 <= k < |lines| && lines[k].magic == magic
  }

  lemma LastOfIs(lines: Table, magic: nat)
    ensures LastOf(lines, magic) < |lines| <==> Has(lines, magic)
  {
  }

  // The drive's own table before the cleanup.
  function Built(tables: seq<Table>, job: Job, magics: seq<nat>): Table
    requires JobOk(job, tables)
  {
    AfterMembers(tables, job, magics)[job.at]
  }

  // The assigned magic numbers that the table does not have yet, and the drives to which
  // a number is still to be assigned.
  ghost function Missing(lines: Table, magics: seq<nat>): set<nat> {
    set m | m in magics && m != NO_MAGIC && !Has(lines, m)
  }

  function Unassigned(magics: seq<nat>): nat {
    if magics == [] then 0
    else Unassigned(magics[..|magics| - 1]) + if magics[|magics| - 1] == NO_MAGIC then 1 else 0
  }

  ghost predicate Room(lines: Table, magics: seq<nat>) {
    |lines| + |Missing(lines, magics)| + Unassigned(magics) <= MAX_ENTRIES
  }

  // One member more: a line is bumped or added, and no line loses its magic number.
  lemma BuiltStep(tables: seq<Table>, job: Job, magics: seq<nat>)
    requires JobOk(job, tables) && magics != []
    ensures var before, m := magics[..|magics| - 1], magics[|magics| - 1];
      var a, b := Built(tables, job, before), Built(tables, job, magics);
      && (Has(a, m) ==> |b| == |a|)
      && (!Has(a, m) ==> |b| == if |a| < MAX_ENTRIES then |a| + 1 else |a|)
      && (!Has(a, m) && |a| < MAX_ENTRIES ==> b[|a|].magic == Assign(m, job.random))
      && (forall k :: 0 <= k < |a| ==> b[k].magic == a[k].magic && b[k].level == a[k].level)
      && NewMagics(tables, job, magics)
         == NewMagics(tables, job, before) + [if Has(a, m) then m else Assign(m, job.random)]
  {
    hide AfterMembers;
    var before, m := magics[..|magics| - 1], magics[|magics| - 1];
    LastOfIs(Built(tables, job, before), m);
    LastMember(tables, job, magics, |magics| - 1);
    assert magics[..|magics|] == magics;
  }

  lemma HasIn(a: Table, b: Table, m: nat)
    requires |a| <= |b| && (forall k :: 0 <= k < |a| ==> b[k].magic == a[k].magic) && Has(a, m)
    ensures Has(b, m)
  {
    var k :| 0 <= k < |a| && a[k].magic == m;
    assert b[k].magic == m;
  }

  lemma {:induction false} BuiltGrows(tables: seq<Table>, job: Job, magics: seq<nat>)
    requires JobOk(job, tables)
    ensures var a, b := tables[job.at], Built(tables, job, magics);
      && |a| <= |b| && (|a| <= MAX_ENTRIES ==> |b| <= MAX_ENTRIES)
      && forall k :: 0 <= k < |a| ==> b[k].magic == a[k].magic && b[k].level == a[k].level
  {
    hide NewMagics, Has;
    if magics != [] {
      BuiltGrows(tables, job, magics[..|magics| - 1]);
      BuiltStep(tables, job, magics);
    }
  }

  lemma MissingMore(lines: Table, before: seq<nat>, m: nat)
    ensures Missing(lines, before) <= Missing(lines, before + [m])
    ensures |Missing(lines, before)| <= |Missing(lines, before + [m])|
    ensures m != NO_MAGIC && !Has(lines, m) && m !in before ==>
      |Missing(lines, before)| < |Missing(lines, before + [m])|
  {
    hide Has;
    var a, b := Missing(lines, before), Missing(lines, before + [m]);
    if m != NO_MAGIC && !Has(lines, m) && m !in a {
      assert b == a + {m};
    } else {
      assert b == a;
    }
  }

  // Every member has a line when there is room.
  lemma {:induction false} LinesFit(tables: seq<Table>, job: Job, magics: seq<nat>)
    requires JobOk(job, tables) && Room(tables[job.at], magics)
    ensures var b, members := Built(tables, job, magics), NewMagics(tables, job, magics);
      && |b| <= |tables[job.at]| + |Missing(tables[job.at], magics)| + Unassigned(magics)
      && (forall j :: 0 <= j < |magics| ==> Has(b, members[j]) && (magics[j] != NO_MAGIC ==> members[j] == magics[j]))
  {
    hide Has, Missing, Built;
    if magics == [] {
      BuiltOfNone(tables, job);
    } else {
      var before, m := magics[..|magics| - 1], magics[|magics| - 1];
      assert magics == before + [m];
      var start, a, b := tables[job.at], Built(tables, job, before), Built(tables, job, magics);
      MissingMore(start, before, m);
      LinesFit(tables, job, before);
      BuiltStep(tables, job, magics);
      BuiltGrows(tables, job, before);
      if !Has(a, m) && m != NO_MAGIC {
        if Has(start, m) {
          HasIn(start, a, m);
        }
        assert m !in before;
      }
      var members := NewMagics(tables, job, magics);
      forall j | 0 <= j < |magics| ensures Has(b, members[j]) && (magics[j] != NO_MAGIC ==> members[j] == magics[j]) {
        if j < |before| {
          HasIn(a, b, members[j]);
        } else if Has(a, m) {
          HasIn(a, b, m);
        } else {
          HasAt(b, |a|);
        }
      }
    }
  }

  lemma HasAt(lines: Table, k: nat)
    requires k < |lines|
    ensures Has(lines, lines[k].magic)
  {
  }

  lemma BuiltOfNone(tables: seq<Table>, job: Job)
    requires JobOk(job, tables)
    ensures Built(tables, job, []) == tables[job.at]
  {
  }

  lemma {:induction false} FilterHas(lines: Table, members: seq<nat>, m: nat)
    requires m in members && Has(lines, m)
    ensures Has(Filter(lines, members), m)
  {
    var last, before := lines[|lines| - 1], lines[..|lines| - 1];
    var r, f := Filter(lines, members), Filter(before, members);
    if last.magic == m {
      assert r[|r| - 1].magic == m;
    } else {
      var k :| 0 <= k < |lines| && lines[k].magic == m;
      assert before[k].magic == m;
      FilterHas(before, members, m);
      HasIn(f, r, m);
    }
  }

  lemma {:induction false} FilterNamesMembers(lines: Table, members: seq<nat>)
    ensures forall k :: 0 <= k < |Filter(lines, members)| ==> Keeps(Filter(lines, members)[k], members)
    ensures forall m :: Has(Filter(lines, members), m) ==> Has(lines, m)
  {
    if lines != [] {
      var before := lines[..|lines| - 1];
      FilterNamesMembers(before, members);
      forall m | Has(Filter(lines, members), m) ensures Has(lines, m) {
        FilterHasLess(lines, members, m);
      }
    }
  }

  lemma FilterHasLess(lines: Table, members: seq<nat>, m: nat)
    requires lines != [] && Has(Filter(lines, members), m)
    requires Has(Filter(lines[..|lines| - 1], members), m) ==> Has(lines[..|lines| - 1], m)
    ensures Has(lines, m)
  {
    var before := lines[..|lines| - 1];
    var r, f := Filter(lines, members), Filter(before, members);
    var k :| 0 <= k < |r| && r[k].magic == m;
    if k < |f| {
      assert f[k].magic == m;
      HasIn(before, lines, m);
    } else {
      assert lines[|lines| - 1].magic == m;
    }
  }

  // The table of the drive that is written, after the update.
  function Written(tables: seq<Table>, job: Job, magics: seq<nat>): Table
    requires JobOk(job, tables)
  {
    Cleaned(AfterMembers(tables, job, magics), NewMagics(tables, job, magics))[job.at]
  }

  lemma WrittenIs(tables: seq<Table>, job: Job, magics: seq<nat>)
    requires JobOk(job, tables)
    ensures Written(tables, job, magics) == Filter(Built(tables, job, magics), NewMagics(tables, job, magics))
  {
  }

  // The start of the update has the magic numbers of the table it is taken from.
  lemma PreparedMagics(tables: seq<Table>, at: nat, magic: nat)
    requires at < |tables| && Toplevel(Started(tables, at, magic)) < |Started(tables, at, magic)|
    ensures var a, b := Started(tables, at, magic), Prepared(tables, at, magic)[at];
      |b| == |a| && (forall k :: 0 <= k < |a| ==> b[k].magic == a[k].magic) && forall m :: Has(a, m) <==> Has(b, m)
  {
    hide Toplevel, Started, Has;
    var a, b := Started(tables, at, magic), Prepared(tables, at, magic)[at];
    forall m ensures Has(a, m) <==> Has(b, m) {
      if Has(a, m) {
        HasIn(a, b, m);
      }
      if Has(b, m) {
        HasIn(b, a, m);
      }
    }
  }

  /** After the update the physical lines of the drive's table name members only; and
      every member has a line when the table it starts from has room for the missing ones.
   */
  lemma UpdatedTable(tables: seq<Table>, job: Job, magics: seq<nat>)
    requires JobOk(job, tables)
    ensures var members := NewMagics(tables, job, magics);
      && (forall k :: 0 <= k < |Written(tables, job, magics)| ==> Keeps(Written(tables, job, magics)[k], members))
      && (Room(tables[job.at], magics) ==> forall j :: 0 <= j < |members| ==>
        Has(Written(tables, job, magics), members[j]))
  {
    hide Room, Has, Filter, NewMagics, Keeps, Written, Built;
    var members := NewMagics(tables, job, magics);
    WrittenIs(tables, job, magics);
    FilterNamesMembers(Built(tables, job, magics), members);
    if Room(tables[job.at], magics) {
      LinesFit(tables, job, magics);
      forall j | 0 <= j < |members| ensures Has(Written(tables, job, magics), members[j]) {
        FilterHas(Built(tables, job, magics), members, members[j]);
      }
    }
  }

  lemma {:induction false} AssignedStay(tables: seq<Table>, job: Job, magics: seq<nat>)
    requires JobOk(job, tables) && NO_MAGIC !in magics
    ensures NewMagics(tables, job, magics) == magics && Unassigned(magics) == 0
  {
    hide AfterMembers;
    if magics != [] {
      AssignedStay(tables, job, magics[..|magics| - 1]);
    }
  }

  function MagicSet(lines: Table): (r: set<nat>)
    ensures |r| <= |lines| && forall k :: 0 <= k < |lines| ==> lines[k].magic in r
  {
    if lines == [] then {} else MagicSet(lines[..|lines| - 1]) + {lines[|lines| - 1].magic}
  }

  lemma SubsetSize(a: set<nat>, b: set<nat>)
    requires a <= b
    ensures |a| <= |b|
  {
    assert b == a + (b - a);
  }

  // Missing numbers that have got a line have one each.
  lemma OneLineEach(a: Table, b: Table, magics: seq<nat>)
    requires |a| <= |b| && forall k :: 0 <= k < |a| ==> b[k].magic == a[k].magic
    requires forall j :: 0 <= j < |magics| ==> Has(b, magics[j])
    ensures |a| + |Missing(a, magics)| <= |b|
  {
    var added := MagicSet(b[|a|..]);
    forall m | m in Missing(a, magics) ensures m in added {
      var k :| 0 <= k < |b| && b[k].magic == m;
      if k >= |a| {
        assert b[|a|..][k - |a|].magic == m;
      }
    }
    SubsetSize(Missing(a, magics), added);
  }

  /** When every member has a magic number, the table that is written has a line for each
      of them exactly when its array has room for the lines that are missing in the table
      it starts from.
   */
  lemma LinesForAllIff(tables: seq<Table>, job: Job, magics: seq<nat>)
    requires JobOk(job, tables) && |tables[job.at]| <= MAX_ENTRIES && NO_MAGIC !in magics
    ensures (forall j :: 0 <= j < |magics| ==> Has(Written(tables, job, magics), magics[j]))
            <==> |tables[job.at]| + |Missing(tables[job.at], magics)| <= MAX_ENTRIES
  {
    hide Has, Filter, Missing, Written, Built, NewMagics, Keeps;
    AssignedStay(tables, job, magics);
    UpdatedTable(tables, job, magics);
    if forall j :: 0 <= j < |magics| ==> Has(Written(tables, job, magics), magics[j]) {
      WrittenIs(tables, job, magics);
      FilterNamesMembers(Built(tables, job, magics), magics);
      BuiltGrows(tables, job, magics);
      OneLineEach(tables[job.at], Built(tables, job, magics), magics);
    }
  }

  /** The same for the whole of update_metadata, on what is there before the call: the own
      table of the drive or, for a spare, that of the newest drive.
   */
  lemma CompleteIff(tables: seq<Table>, job: Job, magics: seq<nat>)
    requires job.at < |tables| == |magics| && job.t != Other && NO_MAGIC !in magics
    requires var lines := Started(tables, job.at, magics[job.at]); Toplevel(lines) < |lines| <= MAX_ENTRIES
    ensures var lines, prepared := Started(tables, job.at, magics[job.at]), Prepared(tables, job.at, magics[job.at]);
      (forall j :: 0 <= j < |magics| ==> Has(Written(prepared, job, magics), magics[j]))
      <==> |lines| + |Missing(lines, magics)| <= MAX_ENTRIES
  {
    hide Has, Written, Started, Toplevel, Prepared;
    var lines, prepared := Started(tables, job.at, magics[job.at]), Prepared(tables, job.at, magics[job.at]);
    PreparedMagics(tables, job.at, magics[job.at]);
    LinesForAllIff(prepared, job, magics);
    assert Missing(lines, magics) == Missing(prepared[job.at], magics);
  }

  predicate Distinct(magics: seq<nat>) {
    forall i, j :: 0 <= i < j < |magics| ==> magics[i] != magics[j]
  }

  // What becomes of a line of the table, when the members have different magic numbers.
  function Bumped(lines: Table, magics: seq<nat>, k: nat): Line
    requires k < |lines|
  {
    if lines[k].magic in magics && k == LastOf(lines, lines[k].magic) then Bump(lines[k]) else lines[k]
  }

  ghost predicate BumpedBy(a: Table, b: Table, magics: seq<nat>) {
    && |a| <= |b| && (forall k :: 0 <= k < |a| ==> b[k] == Bumped(a, magics, k))
    && (forall k :: |a| <= k < |b| ==> b[k].magic in magics && !Has(a, b[k].magic) && b[k].level == FWP)
  }

  // The line of a member that has one already is bumped.
  lemma BumpOne(a: Table, b: Table, before: seq<nat>, m: nat)
    requires BumpedBy(a, b, before) && m !in before && LastOf(b, m) < |b|
    ensures var k := LastOf(b, m); BumpedBy(a, b[k := Bump(b[k])], before + [m])
  {
    hide LastOf;
    SameLast(a, b, m);
    var k := LastOf(b, m);
    var r := b[k := Bump(b[k])];
    forall j | 0 <= j < |a| ensures r[j] == Bumped(a, before + [m], j) {
      assert b[j] == Bumped(a, before, j);
    }
  }

  lemma AddOne(a: Table, b: Table, before: seq<nat>, m: nat, line: Line)
    requires BumpedBy(a, b, before) && m !in before && LastOf(b, m) == |b| && line.magic == m && line.level == FWP
    ensures BumpedBy(a, b + [line], before + [m]) && BumpedBy(a, b, before + [m])
  {
    hide LastOf;
    SameLast(a, b, m);
    LastOfIs(a, m);
    forall j | 0 <= j < |a| ensures b[j] == Bumped(a, before + [m], j) {
      assert b[j] == Bumped(a, before, j);
    }
  }

  /** Of the lines the update starts from, it counts up the sequence number of one line for
      each member, the last one with its magic number, and changes nothing else; what it
      adds are lines of members that had none.
   */
  lemma {:induction false} OneBumpEach(tables: seq<Table>, job: Job, magics: seq<nat>)
    requires JobOk(job, tables) && Distinct(magics) && NO_MAGIC !in magics
    ensures BumpedBy(tables[job.at], Built(tables, job, magics), magics)
  {
    hide AfterMembers, Has, Newest, LastOf, BumpedBy;
    if magics == [] {
      NoBumps(tables, job);
    } else {
      var n := |magics| - 1;
      var before, m := magics[..n], magics[n];
      OneBumpEach(tables, job, before);
      var a, b := tables[job.at], Built(tables, job, before);
      LastMember(tables, job, magics, n);
      assert magics[..n + 1] == magics == before + [m];
      assert m !in before;
      if LastOf(b, m) < |b| {
        BumpOne(a, b, before, m);
      } else {
        var t := AfterMembers(tables, job, before);
        AddOne(a, b, before, m, NewLine(m, job.t, job.name, t[Newest(t).value][0]));
      }
    }
  }

  lemma NoBumps(tables: seq<Table>, job: Job)
    requires JobOk(job, tables)
    ensures BumpedBy(tables[job.at], Built(tables, job, []), [])
  {
    hide LastOf;
    BuiltOfNone(tables, job);
  }

  // A line that is appended with another number does not matter.
  lemma SameLast(a: Table, b: Table, m: nat)
    requires |a| <= |b| && (forall k :: 0 <= k < |a| ==> b[k].magic == a[k].magic)
    requires forall k :: |a| <= k < |b| ==> b[k].magic != m
    ensures LastOf(b, m) == if LastOf(a, m) < |a| then LastOf(a, m) else |b|
  {
  }
}
