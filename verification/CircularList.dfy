/** The intrusive circular doubly linked lists of include/dmraid/list.h and the
    sorted insertion list_add_sorted of lib/metadata/metadata.c.
 */
module CircularList {

  // struct list_head in an element; the key is what a handler's sort function compares.
  class Node {
    var next: Node?
    var prev: Node?
    const key: nat

    constructor (key: nat)
      ensures this.key == key && next == this && prev == this
    {
      this.key := key;
      next, prev := this, this;
    }
  }

  ghost predicate Joined(a: Node, b: Node)
    reads a, b
  {
    a.next == b && b.prev == a
  }

  ghost predicate Distinct(s: seq<Node>) {
    forall i, j :: 0 <= i < j < |s| ==> s[i] != s[j]
  }

  // The ring through these nodes, the head of the list first.
  ghost predicate Ring(s: seq<Node>)
    reads s
  {
    && s != [] && Distinct(s)
    && (forall i :: 0 <= i < |s| - 1 ==> Joined(s[i], s[i + 1]))
    && Joined(s[|s| - 1], s[0])
  }

  // __list_add
  method ListAdd(node: Node, prev: Node, next: Node)
    requires node != prev && node != next
    modifies node, prev, next
    ensures Joined(prev, node) && Joined(node, next)
    ensures prev != next ==> prev.prev == old(prev.prev) && next.next == old(next.next)
  {
    next.prev := node;
    node.next := next;
    node.prev := prev;
    prev.next := node;
  }

  function Insert(s: seq<Node>, p: nat, node: Node): (r: seq<Node>)
    requires p <= |s|
    ensures |r| == |s| + 1
    ensures forall i {:trigger r[i]} :: 0 <= i < |r| ==>
      r[i] == if i < p then s[i] else if i == p then node else s[i - 1]
  {
    s[..p] + [node] + s[p..]
  }

  // list_add_tail: before the node at index p of the ring, at the end for the head.
  method ListAddTail(node: Node, pos: Node, ghost s: seq<Node>, ghost p: nat)
    requires Ring(s) && node !in s && 1 <= p <= |s| && pos == (if p == |s| then s[0] else s[p])
    modifies node, s
    ensures Ring(Insert(s, p, node))
  {
    assert Joined(s[p - 1], pos);
    ghost var r := Insert(s, p, node);
    ListAdd(node, pos.prev, pos);
    forall i | 0 <= i < |r| - 1 ensures Joined(r[i], r[i + 1]) {
      if i + 1 < p {
        assert old(Joined(s[i], s[i + 1]));
      } else if p < i {
        assert old(Joined(s[i - 1], s[i]));
      }
    }
    assert old(Joined(s[|s| - 1], s[0]));
  }

  // list_del of the element at index p.
  method ListDel(pos: Node, ghost s: seq<Node>, ghost p: nat)
    requires Ring(s) && 1 <= p < |s| && pos == s[p]
    modifies s
    ensures Ring(s[..p] + s[p + 1..]) && pos.next == null && pos.prev == null
  {
    ghost var r := s[..p] + s[p + 1..];
    ghost var after := if p + 1 == |s| then s[0] else s[p + 1];
    assert Joined(s[p - 1], pos) && Joined(pos, after);
    pos.next.prev := pos.prev;
    pos.prev.next := pos.next;
    pos.next, pos.prev := null, null;
    assert Joined(s[p - 1], after);
    forall i | 0 <= i < |r| - 1 ensures Joined(r[i], r[i + 1]) {
      if i + 1 < p {
        assert old(Joined(s[i], s[i + 1]));
      } else if p <= i {
        assert old(Joined(s[i + 1], s[i + 2]));
      }
    }
    assert old(Joined(s[|s| - 1], s[0]));
  }

  // ------------------------------------------------------------ list_add_sorted

  // Before the first element with a larger key, or at the end.
  function InsertSorted(nodes: seq<Node>, node: Node): seq<Node> {
    if nodes == [] then [node]
    else if node.key < nodes[0].key then [node] + nodes
    else [nodes[0]] + InsertSorted(nodes[1..], node)
  }

  // The place found by a walk.
  lemma {:induction false} InsertSortedAt(nodes: seq<Node>, node: Node, k: nat)
    requires k <= |nodes| && (forall j :: 0 <= j < k ==> !(node.key < nodes[j].key))
    requires k < |nodes| ==> node.key < nodes[k].key
    ensures InsertSorted(nodes, node) == nodes[..k] + [node] + nodes[k..]
  {
    if k > 0 {
      InsertSortedAt(nodes[1..], node, k - 1);
      assert nodes == [nodes[0]] + nodes[1..];
      assert nodes[..k] == [nodes[0]] + nodes[1..][..k - 1];
    }
  }

  // The walk of list_add_sorted, with a strict comparison of keys or without a sort function.
  method FindPlace(to: Node, node: Node, sort: bool, ghost s: seq<Node>) returns (pos: Node, ghost k: nat)
    requires Ring(s) && s[0] == to
    ensures 1 <= k <= |s| && pos == (if k == |s| then s[0] else s[k])
    ensures forall j :: 1 <= j < k ==> !(node.key < s[j].key)
    ensures k < |s| && sort ==> node.key < s[k].key
    ensures !sort ==> k == 1
  {
    k := 1;
    assert Joined(s[0], if |s| == 1 then s[0] else s[1]);
    pos := to.next;
    while pos != to && sort && !(node.key < pos.key)
      invariant 1 <= k <= |s| && pos == if k == |s| then s[0] else s[k]
      invariant forall j :: 1 <= j < k ==> !(node.key < s[j].key)
      invariant !sort ==> k == 1
      decreases |s| - k
    {
      assert Joined(s[k], if k + 1 == |s| then s[0] else s[k + 1]);
      pos, k := pos.next, k + 1;
    }
  }

  // What list_add_sorted makes of the elements after the head.
  function Added(nodes: seq<Node>, node: Node, sort: bool): seq<Node> {
    if sort then InsertSorted(nodes, node) else [node] + nodes
  }

  lemma AddedAt(s: seq<Node>, node: Node, sort: bool, k: nat)
    requires 1 <= k <= |s| && (forall j :: 1 <= j < k ==> !(node.key < s[j].key))
    requires (k < |s| && sort ==> node.key < s[k].key) && (!sort ==> k == 1)
    ensures Insert(s, k, node) == [s[0]] + Added(s[1..], node, sort)
  {
    hide Insert, InsertSorted;
    var nodes := s[1..];
    if sort {
      InsertSortedAt(nodes, node, k - 1);
    }
    assert nodes[..0] == [] && nodes[0..] == nodes;
  }

  // list_add_sorted
  method ListAddSorted(to: Node, node: Node, sort: bool, ghost s: seq<Node>)
    requires Ring(s) && s[0] == to && node !in s
    modifies node, s
    ensures Ring([to] + Added(s[1..], node, sort))
  {
    var pos;
    ghost var k;
    pos, k := FindPlace(to, node, sort, s);
    ListAddTail(node, pos, s, k);
    AddedAt(s, node, sort, k);
  }

  // The list after elements arrived one by one.
  function InsertAll(arrivals: seq<Node>): seq<Node> {
    if arrivals == [] then [] else InsertSorted(InsertAll(arrivals[..|arrivals| - 1]), arrivals[|arrivals| - 1])
  }

  predicate SortedByKey(nodes: seq<Node>) {
    forall i, j :: 0 <= i < j < |nodes| ==> nodes[i].key <= nodes[j].key
  }

  // The elements of one key, in order.
  function WithKey(nodes: seq<Node>, key: nat): seq<Node> {
    if nodes == [] then []
    else Own(nodes[0], key) + WithKey(nodes[1..], key)
  }

  lemma {:induction false} InsertionAdds(nodes: seq<Node>, node: Node)
    ensures multiset(InsertSorted(nodes, node)) == multiset(nodes) + multiset{node}
  {
    if nodes != [] {
      assert nodes == [nodes[0]] + nodes[1..];
      if !(node.key < nodes[0].key) {
        InsertionAdds(nodes[1..], node);
      }
    }
  }

  lemma InsertedIsOld(nodes: seq<Node>, node: Node, x: Node)
    requires x in InsertSorted(nodes, node)
    ensures x in nodes || x == node
  {
    InsertionAdds(nodes, node);
    assert x in multiset(InsertSorted(nodes, node));
  }

  lemma {:induction false} InsertionKeepsOrder(nodes: seq<Node>, node: Node)
    requires SortedByKey(nodes)
    ensures SortedByKey(InsertSorted(nodes, node))
  {
    if nodes != [] && !(node.key < nodes[0].key) {
      InsertionKeepsOrder(nodes[1..], node);
      var r := InsertSorted(nodes[1..], node);
      forall j | 0 <= j < |r| ensures nodes[0].key <= r[j].key {
        InsertedIsOld(nodes[1..], node, r[j]);
      }
    }
  }

  function Own(node: Node, key: nat): seq<Node> {
    if node.key == key then [node] else []
  }

  lemma {:induction false} WithKeyAppend(nodes: seq<Node>, node: Node, key: nat)
    ensures WithKey(nodes + [node], key) == WithKey(nodes, key) + Own(node, key)
  {
    hide Own;
    var r := nodes + [node];
    assert r[1..] == if nodes == [] then [] else nodes[1..] + [node];
    if nodes != [] {
      WithKeyAppend(nodes[1..], node, key);
    }
  }

  // An element arrives behind those of its own key.
  lemma {:induction false} InsertionIsStable(nodes: seq<Node>, node: Node, key: nat)
    requires SortedByKey(nodes)
    ensures WithKey(InsertSorted(nodes, node), key) == WithKey(nodes, key) + Own(node, key)
  {
    if nodes == [] {
      assert [node][1..] == [];
    } else if node.key < nodes[0].key {
      assert ([node] + nodes)[1..] == nodes;
      if node.key == key {
        LargerKeys(nodes, key);
      }
    } else {
      InsertionIsStable(nodes[1..], node, key);
      assert ([nodes[0]] + InsertSorted(nodes[1..], node))[1..] == InsertSorted(nodes[1..], node);
    }
  }

  lemma {:induction false} LargerKeys(nodes: seq<Node>, key: nat)
    requires forall i :: 0 <= i < |nodes| ==> nodes[i].key > key
    ensures WithKey(nodes, key) == []
  {
    if nodes != [] {
      LargerKeys(nodes[1..], key);
    }
  }

  /** Whatever the order of arrival, the list holds exactly the elements that arrived,
      sorted by key, and elements of equal keys in the order in which they came.
   */
  lemma {:induction false} InsertAllSorts(arrivals: seq<Node>)
    ensures SortedByKey(InsertAll(arrivals)) && multiset(InsertAll(arrivals)) == multiset(arrivals)
    ensures forall key :: WithKey(InsertAll(arrivals), key) == WithKey(arrivals, key)
  {
    if arrivals != [] {
      var before, last := arrivals[..|arrivals| - 1], arrivals[|arrivals| - 1];
      assert arrivals == before + [last];
      InsertAllSorts(before);
      InsertionKeepsOrder(InsertAll(before), last);
      InsertionAdds(InsertAll(before), last);
      forall key ensures WithKey(InsertAll(arrivals), key) == WithKey(arrivals, key) {
        InsertionIsStable(InsertAll(before), last, key);
        WithKeyAppend(before, last, key);
      }
    }
  }

  // One more element arrives.
  method CollectOne(to: Node, ghost arrivals: seq<Node>, node: Node, ghost k: nat)
    requires Distinct(arrivals) && to !in arrivals && k < |arrivals| && node == arrivals[k]
    requires Ring([to] + InsertAll(arrivals[..k]))
    modifies to, arrivals
    ensures Ring([to] + InsertAll(arrivals[..k + 1]))
  {
    hide Ring, InsertSorted;
    ghost var s := [to] + InsertAll(arrivals[..k]);
    InsertAllSorts(arrivals[..k]);
    Arrived(arrivals, k);
    assert s[1..] == InsertAll(arrivals[..k]);
    assert node !in s && forall i :: 0 <= i < |s| ==> i == 0 || s[i] in InsertAll(arrivals[..k]);
    ListAddSorted(to, node, true, s);
    assert arrivals[..k + 1][..k] == arrivals[..k];
  }

  // Elements that arrive one by one, in a new list.
  method Collect(arrivals: seq<Node>) returns (to: Node)
    requires Distinct(arrivals)
    modifies arrivals
    ensures fresh(to) && Ring([to] + InsertAll(arrivals))
  {
    hide Distinct, InsertAll;
    to := new Node(0);
    NothingArrived(arrivals, to);
    for k := 0 to |arrivals|
      invariant fresh(to) && Ring([to] + InsertAll(arrivals[..k]))
    {
      CollectOne(to, arrivals, arrivals[k], k);
    }
    assert arrivals[..|arrivals|] == arrivals;
  }

  lemma NothingArrived(arrivals: seq<Node>, to: Node)
    requires to.next == to && to.prev == to
    ensures Ring([to] + InsertAll(arrivals[..0]))
  {
    assert [to] + InsertAll(arrivals[..0]) == [to];
  }

  lemma Arrived(arrivals: seq<Node>, k: nat)
    requires Distinct(arrivals) && k < |arrivals| && multiset(InsertAll(arrivals[..k])) == multiset(arrivals[..k])
    ensures arrivals[k] !in InsertAll(arrivals[..k])
    ensures forall x :: x in InsertAll(arrivals[..k]) ==> x in arrivals
  {
    forall x | x in InsertAll(arrivals[..k]) ensures x in arrivals[..k] {
      assert x in multiset(InsertAll(arrivals[..k]));
      assert x in multiset(arrivals[..k]);
    }
  }
}
