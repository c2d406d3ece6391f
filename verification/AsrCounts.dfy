/** What update_metadata of lib/format/ataraid/asr.c does to the sequence numbers, in plain
    fields: the line of the top level and the last line of each member are counted up.
 */
module AsrCounts {
  import opened AsrTable
  import opened AsrUpdate
  import opened Structs

  // struct asr_raid_configline of lib/format/ataraid/asr.h
  const LINE_MEMBERS: seq<Group> := [
    Words(2, 2),     // raidcnt, raidseq
    Words(1, 4),     // raidmagic
    Chars(8),        // raidlevel, raidtype, raidstate, flags, refcnt, raidhba, raidchnl, raidlun
    Words(3, 4),     // raidid, loffset, lcapcty
    Words(2, 2),     // strpsize, biosInfo
    Words(1, 4),     // lsu
    Chars(2),        // addedDrives, appSleepRate
    Words(1, 2),     // blockStorageTid
    Words(2, 4),     // curAppBlock, appBurstCount
    Chars(16)]       // name

  // struct asr_raidtable without its lines
  const TABLE_MEMBERS: seq<Group> := [
    Words(2, 4),     // ridcode, rversion
    Words(4, 2),     // maxelm, elmcnt, elmsize, rchksum
    Words(1, 4),     // res1
    Words(2, 2),     // res2, res3
    Words(2, 4),     // raidFlags, timestamp
    Chars(4),        // irocFlags, dirty, actionPriority, spareid
    Words(4, 4),     // sparedrivemagic, raidmagic, verifyDate, recreateDate
    Chars(12)]       // res4

  /** The table has room for as many lines as fill its 16 blocks. */
  lemma TableFillsBlocks()
    ensures Total(TABLE_MEMBERS) + MAX_ENTRIES * Total(LINE_MEMBERS) == 16 * 512
  {
    assert Offset(LINE_MEMBERS, 3) == 16 && Offset(LINE_MEMBERS, 6) == 36 && Offset(LINE_MEMBERS, 9) == 48;
    assert Offset(TABLE_MEMBERS, 3) == 20 && Offset(TABLE_MEMBERS, 6) == 36;
  }

  // How often a line is counted up: as the top level line, and as the last line of a member.
  function Times(lines: Table, magics: seq<nat>, k: nat): nat
    requires k < |lines|
  {
    (if k == Toplevel(lines) then 1 else 0)
    + if lines[k].magic in magics && forall j :: k < j < |lines| ==> lines[j].magic != lines[k].magic then 1 else 0
  }

  // The sequence number has 16 bits; no other field changes.
  predicate CountedUp(before: Line, after: Line, n: nat) {
    && after.sequence == (if n == 0 then before.sequence else (before.sequence + n) % 0x1_0000)
    && after.magic == before.magic && after.level == before.level && after.kind == before.kind
    && after.strip == before.strip && after.capacity == before.capacity && after.count == before.count
    && after.name == before.name
  }

  // Where a line is when the lines of physical drives that are no members are gone.
  function Position(lines: Table, members: seq<nat>, k: nat): nat
    requires k <= |lines|
  {
    if k == 0 then 0 else Position(lines, members, k - 1) + if Keeps(lines[k - 1], members) then 1 else 0
  }

  lemma {:induction false} FilterPrefix(lines: Table, members: seq<nat>, k: nat)
    requires k <= |lines|
    ensures |Filter(lines[..k], members)| == Position(lines, members, k)
    ensures Filter(lines[..k], members) <= Filter(lines, members)
    decreases |lines|
  {
    if k == |lines| {
      assert lines[..k] == lines;
      if k > 0 {
        FilterPrefix(lines[..k - 1], members, k - 1);
        SamePositions(lines[..k - 1], lines, members, k - 1);
        assert lines[..k - 1][..k - 1] == lines[..k - 1];
      }
    } else {
      var n := |lines| - 1;
      FilterPrefix(lines[..n], members, k);
      SamePositions(lines[..n], lines, members, k);
      assert lines[..n][..k] == lines[..k];
    }
  }

  lemma {:induction false} SamePositions(a: Table, b: Table, members: seq<nat>, k: nat)
    requires k <= |a| && k <= |b| && forall j :: 0 <= j < k ==> a[j].magic == b[j].magic && a[j].level == b[j].level
    ensures Position(a, members, k) == Position(b, members, k)
  {
    if k > 0 {
      SamePositions(a, b, members, k - 1);
    }
  }

  lemma FilterAt(lines: Table, members: seq<nat>, k: nat)
    requires k < |lines| && Keeps(lines[k], members)
    ensures var j := Position(lines, members, k);
      j < |Filter(lines, members)| && Filter(lines, members)[j] == lines[k]
  {
    hide Filter, Keeps;
    FilterPrefix(lines, members, k);
    FilterPrefix(lines, members, k + 1);
    FilterStep(lines, members, k);
    var f := Filter(lines[..k + 1], members);
    assert f[|f| - 1] == lines[k];
  }

  lemma ToppedIs(lines: Table)
    requires Toplevel(lines) < |lines|
    ensures var t := Topped(lines);
      && (forall m :: LastOf(t, m) == LastOf(lines, m))
      && forall k :: 0 <= k < |lines| ==> CountedUp(lines[k], t[k], if k == Toplevel(lines) then 1 else 0)
  {
    hide Toplevel, LastOf;
    var t := Topped(lines);
    forall m ensures LastOf(t, m) == LastOf(lines, m) {
      LastOfIs(lines, m);
      LastOfIs(t, m);
      SameLast(lines, t, m);
    }
  }

  // The table before the lines of others are removed.
  lemma BuiltCounts(tables: seq<Table>, job: Job, magics: seq<nat>, k: nat)
    requires job.at < |tables| && job.t != Other && Distinct(magics) && NO_MAGIC !in magics
    requires magics != [] && job.at < |magics|
    requires var lines := Started(tables, job.at, magics[job.at]); Toplevel(lines) < |lines| && k < |lines|
    ensures var lines, prepared := Started(tables, job.at, magics[job.at]), Prepared(tables, job.at, magics[job.at]);
      k < |Built(prepared, job, magics)|
      && CountedUp(lines[k], Built(prepared, job, magics)[k], Times(lines, magics, k))
  {
    hide Toplevel, LastOf, Topped, Started, Built;
    var lines, prepared := Started(tables, job.at, magics[job.at]), Prepared(tables, job.at, magics[job.at]);
    ToppedIs(lines);
    OneBumpEach(prepared, job, magics);
    var p, b := prepared[job.at], Built(prepared, job, magics);
    assert p == Topped(lines);
    assert b[k] == Bumped(p, magics, k);
    LastOfIs(lines, lines[k].magic);
  }

  // What an update of a set with these magic numbers asks for.
  ghost predicate Updatable(tables: seq<Table>, job: Job, magics: seq<nat>) {
    && job.at < |tables| && job.at < |magics| && job.t != Other && Distinct(magics) && NO_MAGIC !in magics
    && var lines := Started(tables, job.at, magics[job.at]); Toplevel(lines) < |lines|
  }

  // A line that stays is where the old table says.
  lemma StaysAt(a: Table, b: Table, members: seq<nat>, k: nat)
    requires k < |a| && k < |b| && forall i :: 0 <= i <= k ==> b[i].magic == a[i].magic && b[i].level == a[i].level
    requires Keeps(a[k], members)
    ensures var j := Position(a, members, k);
      j < |Filter(b, members)| && Filter(b, members)[j] == b[k]
  {
    SamePositions(a, b, members, k);
    FilterAt(b, members, k);
  }

  lemma SamePlaces(tables: seq<Table>, job: Job, magics: seq<nat>, k: nat)
    requires Updatable(tables, job, magics)
    requires k < |Started(tables, job.at, magics[job.at])|
    ensures var lines, b := Started(tables, job.at, magics[job.at]),
                            Built(Prepared(tables, job.at, magics[job.at]), job, magics);
      k < |b| && b[k].magic == lines[k].magic && b[k].level == lines[k].level
  {
    hide Toplevel, Started, Built, Times, Prepared;
    BuiltCounts(tables, job, magics, k);
  }

  /** In the table that is written, each line that stays is counted up as often as it should
      be, in 16 bits, and is the same otherwise.
   */
  lemma WrittenCounts(tables: seq<Table>, job: Job, magics: seq<nat>, k: nat)
    requires Updatable(tables, job, magics)
    requires var lines := Started(tables, job.at, magics[job.at]); k < |lines| && Keeps(lines[k], magics)
    ensures var lines, prepared := Started(tables, job.at, magics[job.at]), Prepared(tables, job.at, magics[job.at]);
      var w, j := Written(prepared, job, magics), Position(lines, magics, k);
      j < |w| && CountedUp(lines[k], w[j], Times(lines, magics, k))
  {
    hide Toplevel, Started, Built, Times, Written, Prepared, CountedUp, Position, Keeps, Filter;
    var lines, prepared := Started(tables, job.at, magics[job.at]), Prepared(tables, job.at, magics[job.at]);
    AssignedStay(prepared, job, magics);
    WrittenIs(prepared, job, magics);
    forall i | 0 <= i <= k
      ensures var b := Built(prepared, job, magics);
              i < |b| && b[i].magic == lines[i].magic && b[i].level == lines[i].level
    {
      SamePlaces(tables, job, magics, i);
    }
    BuiltCounts(tables, job, magics, k);
    StaysAt(lines, Built(prepared, job, magics), magics, k);
  }

  lemma {:induction false} TopIsAbove(lines: Table, k: nat)
    requires k < |lines|
    ensures lines[k].sequence <= Top(lines)
  {
    if k < |lines| - 1 {
      TopIsAbove(lines[..|lines| - 1], k);
    }
  }

  lemma {:induction false} TopLine(lines: Table) returns (k: nat)
    requires lines != []
    ensures k < |lines| && lines[k].sequence == Top(lines)
  {
    var n := |lines| - 1;
    if n > 0 && Top(lines[..n]) > lines[n].sequence {
      k := TopLine(lines[..n]);
    } else {
      k := n;
    }
  }

  // No line of any drive is above a sequence number, and none of the later drives reaches it.
  predicate Highest(tables: seq<Table>, newest: nat, sequence: nat) {
    forall i, k :: 0 <= i < |tables| && 0 <= k < |tables[i]| ==>
      if i > newest then tables[i][k].sequence < sequence else tables[i][k].sequence <= sequence
  }

  /** The newest drive is the last one with a line of the highest sequence number. */
  lemma NewestHasHighest(tables: seq<Table>)
    requires Newest(tables).Some?
    ensures var n := Newest(tables).value;
      exists k :: 0 <= k < |tables[n]| && Highest(tables, n, tables[n][k].sequence)
  {
    hide Newest, Best, Top;
    var n := Newest(tables).value;
    NewestIs(tables);
    var k := TopLine(tables[n]);
    forall i, j | 0 <= i < |tables| && 0 <= j < |tables[i]|
      ensures tables[i][j].sequence <= Top(tables[i])
    {
      TopIsAbove(tables[i], j);
    }
    assert Highest(tables, n, tables[n][k].sequence);
  }

  /** So the table that is written is newer than the one it was made from: its highest
      sequence number is above that of the top level line, as long as nothing wraps around.
   */
  lemma WrittenIsNewer(tables: seq<Table>, job: Job, magics: seq<nat>)
    requires Updatable(tables, job, magics)
    requires var lines := Started(tables, job.at, magics[job.at]); lines[Toplevel(lines)].sequence + 2 < 0x1_0000
    ensures var lines, prepared := Started(tables, job.at, magics[job.at]), Prepared(tables, job.at, magics[job.at]);
      Top(Written(prepared, job, magics)) > lines[Toplevel(lines)].sequence
  {
    hide Started, Written, Position, Prepared;
    var lines, prepared := Started(tables, job.at, magics[job.at]), Prepared(tables, job.at, magics[job.at]);
    var k := Toplevel(lines);
    WrittenCounts(tables, job, magics, k);
    TopIsAbove(Written(prepared, job, magics), Position(lines, magics, k));
  }

  // A sequence number that was counted up once at most.
  predicate Near(before: nat, now: nat) {
    now == before || now == (before + 1) % 0x1_0000
  }

  // A line that is added for a member: the strip, the capacity and the sequence number are
  // those of a first line.
  predicate Added(line: Line, tables: seq<Table>, job: Job, magics: seq<nat>) {
    && line.magic in magics && line.level == 0 && line.count == 0 && line.name == job.name
    && line.kind == (if job.t == Raid0 then 0 else 1)
    && exists i :: 0 <= i < |tables| && tables[i] != [] && line.strip == tables[i][0].strip
                   && line.capacity == tables[i][0].capacity && Near(tables[i][0].sequence, line.sequence)
  }

  // The first line of the newest table has the strip and capacity it had in the beginning.
  lemma FirstLine(tables: seq<Table>, job: Job, magics: seq<nat>, i: nat)
    requires JobOk(job, tables) && Distinct(magics) && NO_MAGIC !in magics && i < |tables|
    requires AfterMembers(tables, job, magics)[i] != []
    ensures var t := AfterMembers(tables, job, magics);
      && tables[i] != [] && t[i][0].strip == tables[i][0].strip && t[i][0].capacity == tables[i][0].capacity
      && Near(tables[i][0].sequence, t[i][0].sequence)
  {
    hide AfterMembers, LastOf;
    OneBumpEach(tables, job, magics);
    if i == job.at {
      assert Built(tables, job, magics)[0] == Bumped(tables[i], magics, 0);
    }
  }

  /** What is added are lines like the first line of a table, for members without one. */
  lemma {:induction false} AddedLines(tables: seq<Table>, job: Job, magics: seq<nat>, k: nat)
    requires JobOk(job, tables) && Distinct(magics) && NO_MAGIC !in magics
    requires |tables[job.at]| <= k < |Built(tables, job, magics)|
    ensures var line := Built(tables, job, magics)[k];
      Added(line, tables, job, magics) && !Has(tables[job.at], line.magic)
  {
    hide AfterMembers, LastOf, Has, Newest;
    if magics == [] {
      BuiltOfNone(tables, job);
    } else {
      var n := |magics| - 1;
      var before, m := magics[..n], magics[n];
      var a, b := tables[job.at], Built(tables, job, before);
      LastMember(tables, job, magics, n);
      assert magics[..n + 1] == magics == before + [m];
      assert m !in before;
      OneBumpEach(tables, job, before);
      OneBumpEach(tables, job, magics);
      SameLast(a, b, m);
      if k < |b| {
        AddedLines(tables, job, before, k);
      } else {
        var t := AfterMembers(tables, job, before);
        FirstLine(tables, job, before, Newest(t).value);
      }
    }
  }

  /** The top level line is the first one of two levels or, without such a line, the last
      logical one.
   */
  lemma ToplevelIs(lines: Table, k: nat)
    requires k < |lines|
    ensures Toplevel(lines) == k
      <==> if exists j :: 0 <= j < |lines| && lines[j].level == 3 then
             lines[k].level == 3 && forall j :: 0 <= j < k ==> lines[j].level != 3
           else lines[k].level == 1 && forall j :: k < j < |lines| ==> lines[j].level != 1
  {
  }

  /** The update starts from the table of the newest drive when the last line of the drive's
      own magic number is that of a spare, and from its own table otherwise.
   */
  lemma StartedIs(tables: seq<Table>, at: nat, magic: nat, k: nat)
    requires at < |tables| && k < |tables[at]|
    requires tables[at][k].magic == magic && forall j :: k < j < |tables[at]| ==> tables[at][j].magic != magic
    ensures tables[at][k].kind != 0xFE ==> Started(tables, at, magic) == tables[at]
    ensures Newest(tables).Some?
    ensures tables[at][k].kind == 0xFE ==> Started(tables, at, magic) == tables[Newest(tables).value]
  {
    hide Newest;
    assert LastOf(tables[at], magic) == k;
  }

  /** A drive that has no line of its own stays with its table too. */
  lemma StartedWithoutLine(tables: seq<Table>, at: nat, magic: nat)
    requires at < |tables| && !Has(tables[at], magic)
    ensures Started(tables, at, magic) == tables[at]
  {
    LastOfIs(tables[at], magic);
  }

  /** Every member without a magic number gets the random one, and the others keep theirs. */
  lemma {:induction false} NumbersAreAssigned(tables: seq<Table>, job: Job, magics: seq<nat>)
    requires JobOk(job, tables) && job.random != NO_MAGIC && !Has(tables[job.at], NO_MAGIC)
    ensures !Has(Built(tables, job, magics), NO_MAGIC)
    ensures var r := NewMagics(tables, job, magics);
      forall j :: 0 <= j < |magics| ==> r[j] == if magics[j] == NO_MAGIC then job.random else magics[j]
  {
    hide Built, NewMagics;
    if magics == [] {
      BuiltOfNone(tables, job);
    } else {
      var n := |magics| - 1;
      NumbersAreAssigned(tables, job, magics[..n]);
      BuiltStep(tables, job, magics);
    }
  }
}
