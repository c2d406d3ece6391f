/** The global list of RAID sets of the event library,
    lib/events/libdmraid-events-isw.c: _find_raid_set, _add_raid_set and
    _del_raid_set on the pointers.
 */
module DsoList {

  class DsoSet {
    const name: string
    var next: DsoSet?

    constructor (name: string)
      ensures this.name == name && next == null
    {
      this.name, next := name, null;
    }
  }

  // The chain of nodes from a pointer on, which ends.
  ghost predicate Chain(from: DsoSet?, nodes: seq<DsoSet>)
    reads nodes
  {
    && (if nodes == [] then from == null else from == nodes[0])
    && (forall i :: 0 <= i < |nodes| - 1 ==> nodes[i].next == nodes[i + 1])
    && (nodes != [] ==> nodes[|nodes| - 1].next == null)
  }

  ghost predicate Distinct(nodes: seq<DsoSet>) {
    forall i, j :: 0 <= i < j < |nodes| ==> nodes[i] != nodes[j]
  }

  // The position of the first set of a name, or the length.
  function Position(nodes: seq<DsoSet>, name: string): (k: nat)
    ensures k <= |nodes| && (forall i :: 0 <= i < k ==> nodes[i].name != name)
      && (k < |nodes| ==> nodes[k].name == name)
  {
    if nodes == [] || nodes[0].name == name then 0 else 1 + Position(nodes[1..], name)
  }

  const BLANK := " "

  // What _add_raid_set makes of the list: it looks for a set that should not exist.
  function Added(nodes: seq<DsoSet>, rs: DsoSet): seq<DsoSet> {
    if nodes == [] then [rs]
    else
      var k := Position(nodes, BLANK);
      nodes[..if k == 0 then 1 else k] + [rs]
  }

  /** Every set stays on the list exactly when none is named by a single blank, or the
      only set is.
   */
  lemma AddKeepsAllIff(nodes: seq<DsoSet>, rs: DsoSet)
    ensures Added(nodes, rs) == nodes + [rs] <==> Position(nodes, BLANK) == |nodes| || |nodes| == 1
  {
    var a := Added(nodes, rs);
    if a == nodes + [rs] {
      assert |a| == |nodes| + 1;
    } else if nodes != [] {
      assert nodes[..|nodes|] == nodes;
    }
  }

  class Registry {
    var head: DsoSet?
    ghost var nodes: seq<DsoSet>

    // The pointers form a chain of different nodes that ends, so there is no cycle.
    ghost predicate Valid()
      reads this, nodes
    {
      Chain(head, nodes) && Distinct(nodes)
    }

    constructor ()
      ensures Valid() && nodes == []
    {
      head, nodes := null, [];
    }

    // _find_raid_set, with the set before the one that is found, or the last one.
    method Find(name: string) returns (rs: DsoSet?, prev: DsoSet?)
      requires Valid()
      ensures var k := Position(nodes, name);
        && rs == (if k < |nodes| then nodes[k] else null)
        && prev == (if nodes == [] then null else nodes[if k == 0 then 0 else k - 1])
    {
      rs, prev := head, head;
      ghost var i := 0;
      while rs != null && rs.name != name
        invariant i <= Position(nodes, name)
        invariant rs == if i < |nodes| then nodes[i] else null
        invariant prev == if nodes == [] then null else nodes[if i == 0 then 0 else i - 1]
        decreases |nodes| - i
      {
        assert i != Position(nodes, name);
        prev := rs;
        rs := rs.next;
        i := i + 1;
      }
    }

    // _add_raid_set
    method Add(rs: DsoSet)
      requires Valid() && rs !in nodes && rs.next == null
      modifies this, nodes
      ensures Valid() && nodes == Added(old(nodes), rs)
    {
      hide Position;
      if head != null {
        var found, prev := Find(BLANK);
        prev.next := rs;
      } else {
        head := rs;
      }
      nodes := Added(nodes, rs);
    }

    // _del_raid_set of what _find_raid_set found
    method Del(rs: DsoSet, prev: DsoSet, ghost k: nat)
      requires Valid() && k < |nodes| && rs == nodes[k] && prev == nodes[if k == 0 then 0 else k - 1]
      modifies this, nodes
      ensures Valid() && nodes == old(nodes[..k] + nodes[k + 1..])
    {
      if rs == head {
        head := rs.next;
      } else {
        prev.next := rs.next;
      }
      nodes := nodes[..k] + nodes[k + 1..];
    }
  }
}
