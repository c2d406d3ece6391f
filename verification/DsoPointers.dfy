/** The list of numbered sets of DsoProtocol stands for the chain of pointers of DsoList:
    each operation of lib/events/libdmraid-events-isw.c does the same to both.
 */
module DsoPointers {
  import DsoList
  import DsoEvents
  import opened DsoProtocol
  import opened Optional

  type Heap = seq<DsoList.DsoSet>      // the structures, in the order of allocation

  predicate Named(sets: Heap, names: seq<string>) {
    |sets| == |names| && forall id :: 0 <= id < |sets| ==> sets[id].name == names[id]
  }

  predicate Within(list: seq<Id>, sets: Heap) {
    forall i :: 0 <= i < |list| ==> list[i] < |sets|
  }

  function Nodes(list: seq<Id>, sets: Heap): (r: Heap)
    requires Within(list, sets)
    ensures |r| == |list| && forall i :: 0 <= i < |r| ==> r[i] == sets[list[i]]
  {
    seq(|list|, i requires 0 <= i < |list| => sets[list[i]])
  }

  lemma {:induction false} SamePosition(list: seq<Id>, names: seq<string>, sets: Heap, name: string)
    requires Named(sets, names) && Within(list, sets)
    ensures DsoList.Position(Nodes(list, sets), name) == Position(list, names, name)
  {
    if list != [] {
      SamePosition(list[1..], names, sets, name);
      assert Nodes(list, sets)[1..] == Nodes(list[1..], sets);
    }
  }

  // _add_raid_set
  lemma SameAdded(list: seq<Id>, names: seq<string>, sets: Heap, id: Id)
    requires Named(sets, names) && Within(list, sets) && id < |sets|
    ensures Within(Added(list, names, id), sets)
    ensures DsoList.Added(Nodes(list, sets), sets[id]) == Nodes(Added(list, names, id), sets)
  {
    SamePosition(list, names, sets, BLANK);
    var a, b := DsoList.Added(Nodes(list, sets), sets[id]), Nodes(Added(list, names, id), sets);
    assert |a| == |b| && forall i :: 0 <= i < |a| ==> a[i] == b[i];
  }

  // _del_raid_set, at the place where _find_raid_set found the set
  lemma {:induction false} SameWithout(list: seq<Id>, sets: Heap, k: nat)
    requires Within(list, sets) && k < |list| && forall i :: 0 <= i < k ==> list[i] != list[k]
    ensures Within(Without(list, list[k]), sets)
    ensures Nodes(list, sets)[..k] + Nodes(list, sets)[k + 1..] == Nodes(Without(list, list[k]), sets)
  {
    WithoutAt(list, k);
    var a, b := Nodes(list, sets)[..k] + Nodes(list, sets)[k + 1..], Nodes(Without(list, list[k]), sets);
    assert |a| == |b| && forall i :: 0 <= i < |a| ==> a[i] == b[i];
  }

  lemma {:induction false} WithoutAt(list: seq<Id>, k: nat)
    requires k < |list| && forall i :: 0 <= i < k ==> list[i] != list[k]
    ensures Without(list, list[k]) == list[..k] + list[k + 1..]
  {
    if k > 0 {
      WithoutAt(list[1..], k - 1);
      assert list[..k] == [list[0]] + list[1..][..k - 1];
    }
  }

  // The pointers of the list hold the sets of a state.
  ghost predicate Stands(r: DsoList.Registry, s: State, sets: Heap)
    reads r, r.nodes
  {
    r.Valid() && Named(sets, s.names) && Within(s.list, sets) && r.nodes == Nodes(s.list, sets)
  }

  // The step that adds a set, on the pointers.
  method AddStep(r: DsoList.Registry, ghost s: State, ghost t: Tid, ghost id: Id, rs: DsoList.DsoSet, ghost sets: Heap)
    requires Stands(r, s, sets) && Inv(s) && t < |s.pcs| && s.pcs[t] == RegAdd(id) && rs == sets[id] && rs.next == null
    requires forall i, j :: 0 <= i < j < |sets| ==> sets[i] != sets[j]
    modifies r, r.nodes
    ensures Stands(r, Step(s, t, Idle).value, sets)
  {
    hide Added, Inv;
    InvGives(s, t);
    NotOnList(s, t, id, sets);
    SameAdded(s.list, s.names, sets, id);
    r.Add(rs);
  }

  lemma NotOnList(s: State, t: Tid, id: Id, sets: Heap)
    requires Inv(s) && t < |s.pcs| && s.pcs[t] == RegAdd(id) && |sets| == |s.names|
    requires Within(s.list, sets) && forall i, j :: 0 <= i < j < |sets| ==> sets[i] != sets[j]
    ensures id < |sets| && sets[id] !in Nodes(s.list, sets)
  {
    assert PcOk(s, s.pcs[t]);
  }

  // The step that unlinks a set, on the pointers: the set was found under the same mutex.
  method UnlinkStep(r: DsoList.Registry, ghost s: State, ghost t: Tid, ghost id: Id, name: string, ghost sets: Heap)
    requires Stands(r, s, sets) && Inv(s) && t < |s.pcs| && s.pcs[t] == UnUnlink(id) && name == s.names[id]
    modifies r, r.nodes
    ensures Stands(r, Step(s, t, Idle).value, sets)
  {
    hide Without, Inv, Position;
    ghost var k := FoundAgain(s, t, id);
    SamePosition(s.list, s.names, sets, name);
    SameWithout(s.list, sets, k);
    var rs, prev := r.Find(name);
    r.Del(rs, prev, k);
  }

  lemma FoundAgain(s: State, t: Tid, id: Id) returns (k: nat)
    requires Inv(s) && t < |s.pcs| && s.pcs[t] == UnUnlink(id)
    ensures ListOk(s) && id < |s.names| && k == Position(s.list, s.names, s.names[id]) < |s.list| && s.list[k] == id
    ensures forall i :: 0 <= i < k ==> s.list[i] != id
  {
    assert PcOk(s, s.pcs[t]);
    k :| 0 <= k < |s.list| && s.list[k] == id;
  }

  // ---------------------------------------------------------------- every run

  // The set that a thread is registering.
  function Registering(pc: Pc): Option<Id> {
    match pc
    case RegLockAgain(id) => Some(id)
    case RegCheckAgain(id) => Some(id)
    case RegAdd(id) => Some(id)
    case _ => None
  }

  ghost predicate Different(sets: Heap) {
    forall i, j :: 0 <= i < j < |sets| ==> sets[i] != sets[j]
  }

  // A set that is being registered has not been linked yet.
  ghost predicate Unlinked(s: State, sets: Heap)
    reads sets
  {
    forall t :: 0 <= t < |s.pcs| ==>
      match Registering(s.pcs[t])
      case None => true
      case Some(id) => id < |sets| && sets[id].next == null
  }

  lemma RegisteringAfter(s: State, t: Tid, start: Pc)
    requires t < |s.pcs| && ListOk(s) && Step(s, t, start).Some?
    ensures var pc, id := Step(s, t, start).value.pcs[t], Registering(s.pcs[t]);
      && (s.pcs[t].RegCreate? ==> Registering(pc) == Some(|s.names|))
      && (!s.pcs[t].RegCreate? ==> Registering(pc) == None || Registering(pc) == id)
  {
    hide Position, Added, Without;
    var pc := s.pcs[t];
    if !pc.RegCreate? && !pc.RegLockAgain? && !pc.RegCheckAgain? {
      NoRegistration(s, t, start);
    }
  }

  lemma NoRegistration(s: State, t: Tid, start: Pc)
    requires t < |s.pcs| && ListOk(s) && Step(s, t, start).Some?
    requires !s.pcs[t].RegCreate? && !s.pcs[t].RegLockAgain? && !s.pcs[t].RegCheckAgain?
    ensures Registering(Step(s, t, start).value.pcs[t]) == None
  {
    hide Position, Added, Without;
    var next := Step(s, t, start).value.pcs[t];
    assert !next.RegLockAgain? && !next.RegCheckAgain? && !next.RegAdd?;
  }

  lemma RegisteringIsPrivate(s: State, t: Tid, sets: Heap)
    requires Inv(s) && t < |s.pcs| && Registering(s.pcs[t]).Some? && Different(sets)
    requires Within(s.list, sets) && |sets| == |s.names|
    ensures var id := Registering(s.pcs[t]).value; id < |sets| && sets[id] !in Nodes(s.list, sets)
  {
    assert PcOk(s, s.pcs[t]);
  }

  // Nothing that a thread registers is among the nodes that a step may relink.
  lemma NoneIsLinked(s: State, sets: Heap)
    requires Inv(s) && Different(sets) && Within(s.list, sets) && |sets| == |s.names|
    ensures forall t :: 0 <= t < |s.pcs| && Registering(s.pcs[t]).Some? ==>
      var id := Registering(s.pcs[t]).value; id < |sets| && sets[id] !in Nodes(s.list, sets)
  {
    hide Inv;
    forall t: nat | t < |s.pcs| && Registering(s.pcs[t]).Some?
      ensures var id := Registering(s.pcs[t]).value; id < |sets| && sets[id] !in Nodes(s.list, sets)
    {
      RegisteringIsPrivate(s, t, sets);
    }
  }

  lemma UnlinkedAfter(s: State, t: Tid, start: Pc, sets: Heap, more: Heap)
    requires t < |s.pcs| && ListOk(s) && Step(s, t, start).Some? && Unlinked(s, sets) && sets <= more
    requires s.pcs[t].RegCreate? ==> |s.names| < |more| && more[|s.names|].next == null
    ensures Unlinked(Step(s, t, start).value, more)
  {
    hide Step;
    DsoEvents.OthersStay(s, t, start);
    RegisteringAfter(s, t, start);
  }

  lemma Extended(list: seq<Id>, names: seq<string>, sets: Heap, rs: DsoList.DsoSet)
    requires Named(sets, names) && Within(list, sets)
    ensures Named(sets + [rs], names + [rs.name]) && Within(list, sets + [rs])
    ensures Nodes(list, sets + [rs]) == Nodes(list, sets)
  {
  }

  // A step that does not touch the list.
  lemma SameList(s: State, t: Tid, start: Pc)
    requires t < |s.pcs| && ListOk(s) && Step(s, t, start).Some? && !s.pcs[t].RegAdd? && !s.pcs[t].UnUnlink?
    ensures var r := Step(s, t, start).value;
      r.list == s.list && r.names == s.names + if s.pcs[t].RegCreate? then [s.pcs[t].name] else []
  {
    hide Step;
    DsoEvents.ListAfter(s, t, start);
    DsoEvents.NamesAfter(s, t, start);
  }

  // What a step of a run needs of the structures, and leaves.
  ghost predicate Ready(r: DsoList.Registry, s: State, sets: Heap)
    reads r, r.nodes, sets
  {
    Stands(r, s, sets) && Different(sets) && Unlinked(s, sets)
  }

  method CreateSet(r: DsoList.Registry, s: State, m: Move, sets: Heap) returns (more: Heap)
    requires Ready(r, s, sets) && ListOk(s) && m.thread < |s.pcs| && s.pcs[m.thread].RegCreate?
    ensures Ready(r, Step(s, m.thread, m.start).value, more) && sets <= more
    ensures forall n :: n in more ==> n in sets || fresh(n)
  {
    hide Step;
    var rs := new DsoList.DsoSet(s.pcs[m.thread].name);
    CreateIsPossible(s, m.thread, m.start);
    SameList(s, m.thread, m.start);
    Extended(s.list, s.names, sets, rs);
    more := sets + [rs];
    UnlinkedAfter(s, m.thread, m.start, sets, more);
  }

  lemma CreateIsPossible(s: State, t: Tid, start: Pc)
    requires t < |s.pcs| && ListOk(s) && s.pcs[t].RegCreate?
    ensures Step(s, t, start).Some?
  {
  }

  method LinkSet(r: DsoList.Registry, s: State, m: Move, sets: Heap)
    requires Ready(r, s, sets) && Inv(s) && m.thread < |s.pcs| && s.pcs[m.thread].RegAdd?
    modifies r, r.nodes
    ensures ListOk(s) && Step(s, m.thread, m.start).Some? && Ready(r, Step(s, m.thread, m.start).value, sets)
  {
    hide Inv, Step, Added;
    InvGives(s, m.thread);
    NoneIsLinked(s, sets);
    OnlyIdleStarts(s, m.thread, m.start);
    var id := s.pcs[m.thread].id;
    assert Registering(s.pcs[m.thread]) == Some(id);
    AddStep(r, s, m.thread, id, sets[id], sets);
    assert Unlinked(s, sets);
    UnlinkedAfter(s, m.thread, m.start, sets, sets);
  }

  method UnlinkSet(r: DsoList.Registry, s: State, m: Move, sets: Heap)
    requires Ready(r, s, sets) && Inv(s) && m.thread < |s.pcs| && s.pcs[m.thread].UnUnlink?
    modifies r, r.nodes
    ensures ListOk(s) && Step(s, m.thread, m.start).Some? && Ready(r, Step(s, m.thread, m.start).value, sets)
  {
    hide Inv, Step, Without;
    InvGives(s, m.thread);
    NoneIsLinked(s, sets);
    OnlyIdleStarts(s, m.thread, m.start);
    var id := s.pcs[m.thread].id;
    UnlinkStep(r, s, m.thread, id, s.names[id], sets);
    assert Unlinked(s, sets);
    UnlinkedAfter(s, m.thread, m.start, sets, sets);
  }

  lemma OtherIsReady(r: DsoList.Registry, s: State, m: Move, sets: Heap)
    requires Ready(r, s, sets) && ListOk(s) && m.thread < |s.pcs| && Step(s, m.thread, m.start).Some?
    requires !s.pcs[m.thread].RegCreate? && !s.pcs[m.thread].RegAdd? && !s.pcs[m.thread].UnUnlink?
    ensures Ready(r, Step(s, m.thread, m.start).value, sets)
  {
    hide Step;
    SameList(s, m.thread, m.start);
    assert s.names + [] == s.names;
    UnlinkedAfter(s, m.thread, m.start, sets, sets);
  }

  /** One step of a run on the structures: a new set, a set that is linked, or one that is
      unlinked.
   */
  method Execute(r: DsoList.Registry, s: State, m: Move, sets: Heap) returns (more: Heap)
    requires Ready(r, s, sets) && Inv(s) && m.thread < |s.pcs| && ListOk(s) && Step(s, m.thread, m.start).Some?
    modifies r, r.nodes
    ensures Ready(r, Step(s, m.thread, m.start).value, more) && sets <= more
    ensures forall n :: n in more ==> n in sets || fresh(n)
  {
    hide Inv, Step, Ready;
    more := sets;
    match s.pcs[m.thread] {
      case RegCreate(_) => more := CreateSet(r, s, m, sets);
      case RegAdd(_) => LinkSet(r, s, m, sets);
      case UnUnlink(_) => UnlinkSet(r, s, m, sets);
      case _ => OtherIsReady(r, s, m, sets);
    }
  }

  lemma OnlyIdleStarts(s: State, t: Tid, start: Pc)
    requires t < |s.pcs| && ListOk(s) && (s.pcs[t].RegAdd? || s.pcs[t].UnUnlink?)
    ensures Step(s, t, start) == Step(s, t, Idle) && Step(s, t, start).Some?
    ensures Inv(s) && s.pcs[t].UnUnlink? ==> s.pcs[t].id < |s.names|
  {
  }

  /** Executing any run on a new list and new structures: the pointers stand for the last
      state of the run, so they form a chain that ends.
   */
  method ExecuteRun(states: seq<State>, moves: seq<Move>) returns (r: DsoList.Registry, sets: Heap)
    requires Run(states, moves)
    ensures fresh(r) && r.Valid() && Stands(r, states[|moves|], sets)
  {
    hide Inv, Step, Ready;
    r := new DsoList.Registry();
    sets := [];
    StartIsReady(r, states[0]);
    for i := 0 to |moves|
      invariant fresh(r) && Ready(r, states[i], sets) && forall n :: n in sets ==> fresh(n)
    {
      ListIsAlwaysSound(states, moves, i);
      assert Step(states[i], moves[i].thread, moves[i].start) == Some(states[i + 1]);
      NodesAreSets(r, states[i], sets);
      assert forall k :: 0 <= k < |r.nodes| ==> fresh(r.nodes[k]);
      sets := Execute(r, states[i], moves[i], sets);
    }
    ReadyStands(r, states[|moves|], sets);
  }

  lemma StartIsReady(r: DsoList.Registry, s: State)
    requires r.Valid() && r.nodes == [] && exists n: nat :: s == Initial(n)
    ensures Ready(r, s, [])
  {
  }

  lemma NodesAreSets(r: DsoList.Registry, s: State, sets: Heap)
    requires Ready(r, s, sets)
    ensures forall k :: 0 <= k < |r.nodes| ==> r.nodes[k] in sets
  {
  }

  lemma ReadyStands(r: DsoList.Registry, s: State, sets: Heap)
    requires Ready(r, s, sets)
    ensures r.Valid() && Stands(r, s, sets)
  {
  }
}
