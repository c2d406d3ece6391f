/** Editing the RAID table of an Adaptec HostRAID drive, lib/format/ataraid/asr.c:
    the configuration lines are an array that is compacted and extended in place.
 */
module AsrTable {
  import opened Optional

  const MAX_ENTRIES := 127         // RCTBL_MAX_ENTRIES
  const NO_MAGIC := 0xFFFF_FFFF
  const FWP := 0                   // a physical drive
  const FWL := 1                   // a logical drive
  const FWL_2 := 3                 // a drive of two levels
  const ASR_RAID0 := 0
  const ASR_RAID1 := 1
  const ASR_RAIDSPR := 0xFE

  // A configuration line, with the fields that the editors use.
  datatype Line = Line(magic: nat, sequence: nat, level: nat, kind: nat, strip: nat, capacity: nat, count: nat,
    name: string)

  datatype SetType = Raid0 | Raid1 | Other

  function Bump(cl: Line): Line {
    cl.(sequence := (cl.sequence + 1) % 0x1_0000)
  }

  // The line of a drive that is new in the set, like the first line of the newest drive.
  function NewLine(magic: nat, t: SetType, name: string, first: Line): Line {
    Line(magic, first.sequence, FWP, if t == Raid0 then ASR_RAID0 else ASR_RAID1, first.strip, first.capacity, 0, name)
  }

  // get_config: the last line of a magic number, or the length.
  function LastOf(lines: seq<Line>, magic: nat): (k: nat)
    ensures k <= |lines| && (k < |lines| ==> lines[k].magic == magic)
    ensures forall j :: 0 <= j < |lines| && (k < j || k == |lines|) ==> lines[j].magic != magic
  {
    if lines == [] then 0
    else if lines[|lines| - 1].magic == magic then |lines| - 1
    else
      var k := LastOf(lines[..|lines| - 1], magic);
      if k == |lines| - 1 then |lines| else k
  }

  function FirstTwoLevel(lines: seq<Line>): (k: nat)
    ensures k <= |lines| && (k < |lines| ==> lines[k].level == FWL_2)
    ensures forall j :: 0 <= j < k ==> lines[j].level != FWL_2
  {
    if lines == [] || lines[0].level == FWL_2 then 0 else 1 + FirstTwoLevel(lines[1..])
  }

  function LastOneLevel(lines: seq<Line>): (k: nat)
    ensures k <= |lines| && (k < |lines| ==> lines[k].level == FWL)
    ensures forall j :: 0 <= j < |lines| && (k < j || k == |lines|) ==> lines[j].level != FWL
  {
    if lines == [] then 0
    else if lines[|lines| - 1].level == FWL then |lines| - 1
    else
      var k := LastOneLevel(lines[..|lines| - 1]);
      if k == |lines| - 1 then |lines| else k
  }

  // find_toplevel: the first line of two levels, or else the last logical one.
  function Toplevel(lines: seq<Line>): (k: nat)
    ensures k <= |lines| && (k < |lines| ==> lines[k].level in {FWL, FWL_2})
    ensures k == |lines| <==> forall j :: 0 <= j < |lines| ==> lines[j].level !in {FWL, FWL_2}
  {
    var k := FirstTwoLevel(lines);
    if k < |lines| then k else LastOneLevel(lines)
  }

  // Lines of logical drives, and of physical drives that are members.
  predicate Keeps(cl: Line, members: seq<nat>) {
    cl.level != FWP || cl.magic in members
  }

  function Filter(lines: seq<Line>, members: seq<nat>): (r: seq<Line>)
    ensures |r| <= |lines|
  {
    if lines == [] then []
    else
      var r := Filter(lines[..|lines| - 1], members);
      if Keeps(lines[|lines| - 1], members) then r + [lines[|lines| - 1]] else r
  }

  class Asr {
    var magic: nat               // drivemagic
    const ent: array<Line>
    var elmcnt: nat

    ghost predicate Valid()
      reads this`elmcnt
    {
      ent.Length == MAX_ENTRIES && elmcnt <= MAX_ENTRIES
    }

    ghost function Lines(): seq<Line>
      reads this`elmcnt, ent
      requires Valid()
    {
      ent[..elmcnt]
    }

    constructor (magic: nat, lines: seq<Line>)
      requires |lines| <= MAX_ENTRIES
      ensures Valid() && fresh(ent) && this.magic == magic && Lines() == lines
    {
      this.magic, elmcnt := magic, |lines|;
      ent := new Line[MAX_ENTRIES](k => if 0 <= k < |lines| then lines[k] else Line(0, 0, 0, 0, 0, 0, 0, ""));
    }

    // get_config searches from the end.
    method GetConfig(key: nat) returns (r: Option<nat>)
      requires Valid()
      ensures var k := LastOf(Lines(), key); r == if k < |Lines()| then Some(k) else None
    {
      var k: nat := elmcnt;
      while k > 0
        invariant k <= elmcnt && forall j :: k <= j < elmcnt ==> Lines()[j].magic != key
      {
        k := k - 1;
        assert Lines()[k] == ent[k];
        if ent[k].magic == key {
          return Some(k);
        }
      }
      r := None;
    }

    // find_toplevel
    method FindToplevel() returns (r: Option<nat>)
      requires Valid()
      ensures var k := Toplevel(Lines()); r == if k < |Lines()| then Some(k) else None
    {
      r := None;
      var i: nat := 0;
      while i < elmcnt
        invariant i <= elmcnt && forall k :: 0 <= k < i ==> Lines()[k].level != FWL_2
        invariant r.None? ==> forall k :: 0 <= k < i ==> Lines()[k].level != FWL
        invariant r.Some? ==> r.value < i && Lines()[r.value].level == FWL && forall k :: r.value < k < i ==>
          Lines()[k].level != FWL
      {
        if ent[i].level == FWL {
          r := Some(i);
        } else if ent[i].level == FWL_2 {
          r := Some(i);
          assert Lines()[i].level == FWL_2;
          return;
        }
        i := i + 1;
      }
    }

    // delete_configline: the lines behind move down by one.
    method DeleteConfigline(index: nat)
      requires Valid() && index < elmcnt
      modifies this`elmcnt, ent
      ensures Valid() && Lines() == old(Lines()[..index] + Lines()[index + 1..])
    {
      elmcnt := elmcnt - 1;
      var cl: nat := index;
      while cl < elmcnt
        invariant index <= cl <= elmcnt == old(elmcnt) - 1
        invariant forall k :: 0 <= k < index ==> ent[k] == old(ent[k])
        invariant forall k :: index <= k < cl ==> ent[k] == old(ent[k + 1])
        invariant forall k :: cl < k <= elmcnt ==> ent[k] == old(ent[k])
      {
        ent[cl] := ent[cl + 1];
        cl := cl + 1;
      }
    }

    // create_configline; a set of another type leaves what the place held before.
    method CreateConfigline(key: nat, t: SetType, name: string, first: Line) returns (ok: bool)
      requires Valid()
      modifies this`elmcnt, ent
      ensures Valid()
      ensures old(elmcnt) == MAX_ENTRIES ==> !ok && Lines() == old(Lines())
      ensures old(elmcnt) < MAX_ENTRIES ==> ok == (t != Other) && |Lines()| == |old(Lines())| + 1
      ensures old(elmcnt) < MAX_ENTRIES ==>
        Lines()[..|old(Lines())|] == old(Lines()) && Lines()[|old(Lines())|].magic == key
      ensures ok ==> Lines() == old(Lines()) + [NewLine(key, t, name, first)]
    {
      if elmcnt >= MAX_ENTRIES {
        return false;
      }
      var cl := elmcnt;
      elmcnt := elmcnt + 1;
      ent[cl] := ent[cl].(magic := key, sequence := first.sequence, strip := first.strip, name := name, count := 0);
      match t {
        case Raid0 => ent[cl] := ent[cl].(kind := ASR_RAID0);
        case Raid1 => ent[cl] := ent[cl].(kind := ASR_RAID1);
        case Other => return false;
      }
      ent[cl] := ent[cl].(capacity := first.capacity, level := FWP);
      return true;
    }

    // The loop of cleanup_configlines over one table.
    method Cleanup(members: seq<nat>)
      requires Valid()
      modifies this`elmcnt, ent
      ensures Valid() && Lines() == Filter(old(Lines()), members)
    {
      hide Filter;
      ghost var all := Lines();
      ghost var seen := 0;
      var clcnt := 0;
      FilterStart(all, members);
      while clcnt < elmcnt
        invariant Valid() && clcnt <= elmcnt && seen <= |all|
        invariant Lines()[..clcnt] == Filter(all[..seen], members)
        invariant Lines()[clcnt..] == all[seen..]
        decreases elmcnt - clcnt
      {
        FilterStep(all, members, seen);
        if ent[clcnt].level != FWP || ent[clcnt].magic in members {
          clcnt := clcnt + 1;
        } else {
          DeleteAndKeep(clcnt);
        }
        seen := seen + 1;
      }
      assert all[..seen] == all;
      assert Lines()[..clcnt] == Lines();
    }

    // The part before the deleted line, and the part behind it.
    method DeleteAndKeep(index: nat)
      requires Valid() && index < elmcnt
      modifies this`elmcnt, ent
      ensures Valid() && elmcnt == old(elmcnt) - 1
      ensures Lines()[..index] == old(Lines()[..index]) && Lines()[index..] == old(Lines()[index + 1..])
    {
      ghost var s := Lines();
      DeleteConfigline(index);
      assert Lines()[..index] == s[..index] && Lines()[index..] == s[index + 1..];
    }
  }

  lemma FilterStart(lines: seq<Line>, members: seq<nat>)
    ensures Filter(lines[..0], members) == []
  {
  }

  lemma FilterStep(lines: seq<Line>, members: seq<nat>, k: nat)
    requires k < |lines|
    ensures Filter(lines[..k + 1], members)
         == Filter(lines[..k], members) + if Keeps(lines[k], members) then [lines[k]] else []
  {
    assert lines[..k + 1][..k] == lines[..k];
  }
}
