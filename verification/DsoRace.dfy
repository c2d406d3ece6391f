/** Two events on one set: the in-use bit of lib/events/libdmraid-events-isw.c is cleared
    by the first, and the set is freed under the second.
 */
module DsoRace {
  import opened DsoProtocol
  import opened DsoEvents
  import opened Optional

  // The state after a list of moves, when all of them are possible.
  function Exec(s: State, moves: seq<Move>): Option<State>
    decreases |moves|
  {
    if moves == [] then Some(s)
    else if moves[0].thread < |s.pcs| && ListOk(s) then
      match Step(s, moves[0].thread, moves[0].start)
      case None => None
      case Some(next) => Exec(next, moves[1..])
    else None
  }

  lemma {:induction false} ExecMore(s: State, a: seq<Move>, b: seq<Move>)
    requires Exec(s, a).Some?
    ensures Exec(s, a + b) == Exec(Exec(s, a).value, b)
    decreases |a|
  {
    hide Step;
    if a == [] {
      assert a + b == b;
    } else {
      assert (a + b)[1..] == a[1..] + b;
      ExecMore(Step(s, a[0].thread, a[0].start).value, a[1..], b);
    }
  }

  // One more move at the end of a run.
  lemma Forward(s0: State, moves: seq<Move>, s: State, t: Tid, start: Pc) returns (more: seq<Move>, next: State)
    requires Exec(s0, moves) == Some(s) && t < |s.pcs| && ListOk(s) && Step(s, t, start).Some?
    ensures Exec(s0, more) == Some(next) && next == Step(s, t, start).value
  {
    hide Step;
    more, next := moves + [Move(t, start)], Step(s, t, start).value;
    ExecMore(s0, moves, [Move(t, start)]);
    assert [Move(t, start)][1..] == [];
  }

  // An event arrives on a set and waits for the set's own mutex.
  lemma EventArrives(s: State, t: Tid, name: string, id: Id) returns (m: seq<Move>)
    requires t < |s.pcs| && s.pcs[t] == Idle && s.mutex == {} && ListOk(s)
    requires var k := Position(s.list, s.names, name); k < |s.list| && s.list[k] == id
    ensures Exec(s, m) == Some(Goto(s, t, EvWait(id)).(flags := s.flags + {id}))
  {
    hide Exec, Position;
    m := ExecNothing(s);
    var n := s;
    m, n := Forward(s, m, n, t, EvLock(name));
    m, n := Forward(s, m, n, t, Idle);
    assert n == Goto(s, t, EvFind(name)).(mutex := {t});
    m, n := Forward(s, m, n, t, Idle);
    m, n := Forward(s, m, n, t, Idle);
    m, n := Forward(s, m, n, t, Idle);
    assert n == Goto(s, t, EvWait(id)).(flags := s.flags + {id});
  }

  lemma ExecNothing(s: State) returns (m: seq<Move>)
    ensures Exec(s, m) == Some(s)
  {
    m := [];
  }

  // An event that waits is handled, and its thread clears the flag.
  lemma EventEnds(s: State, t: Tid, id: Id) returns (m: seq<Move>)
    requires t < |s.pcs| && s.pcs[t] == EvWait(id) && id !in s.busy && ListOk(s)
    ensures Exec(s, m) == Some(Goto(s, t, Idle).(flags := s.flags - {id}))
  {
    hide Exec;
    m := ExecNothing(s);
    var n := s;
    m, n := Forward(s, m, n, t, Idle);
    m, n := Forward(s, m, n, t, Idle);
    assert s.busy[id := t] - {id} == s.busy;
    m, n := Forward(s, m, n, t, Idle);
    assert n == Goto(s, t, Idle).(flags := s.flags - {id});
  }

  // A set that is not flagged is unregistered and freed.
  lemma UnregisterFrees(s: State, t: Tid, name: string, id: Id) returns (m: seq<Move>)
    requires t < |s.pcs| && s.pcs[t] == Idle && s.mutex == {} && ListOk(s) && id !in s.flags
    requires var k := Position(s.list, s.names, name); k < |s.list| && s.list[k] == id
    ensures Exec(s, m) == Some(Goto(s, t, Idle).(list := Without(s.list, id), freed := s.freed + {id}))
  {
    hide Exec, Position, Without;
    WithoutIsOk(s, id);
    m := ExecNothing(s);
    var n := s;
    m, n := Forward(s, m, n, t, UnLock(name));
    m, n := Forward(s, m, n, t, Idle);
    assert n == Goto(s, t, UnFind(name)).(mutex := {t});
    m, n := Forward(s, m, n, t, Idle);
    m, n := Forward(s, m, n, t, Idle);
    assert n == Goto(s, t, UnUnlink(id)).(mutex := {t});
    m, n := Forward(s, m, n, t, Idle);
    m, n := Forward(s, m, n, t, Idle);
    m, n := Forward(s, m, n, t, Idle);
    assert n == Goto(s, t, Idle).(list := Without(s.list, id), freed := s.freed + {id});
  }

  lemma WithoutIsOk(s: State, id: Id)
    requires ListOk(s)
    ensures ListOk(s.(list := Without(s.list, id)))
  {
    WithoutIsPart(s.list, id);
    var r := Without(s.list, id);
    forall i | 0 <= i < |r| ensures r[i] < |s.names| {
      assert r[i] in r;
    }
  }

  lemma {:induction false} WithoutIsPart(list: seq<Id>, id: Id)
    ensures forall x :: x in Without(list, id) ==> x in list
  {
    if list != [] {
      WithoutIsPart(list[1..], id);
    }
  }

  // From any state with a set on the list, and three idle threads, an event thread can be
  // left with a set that is freed.
  lemma OrphanedEvent(s: State, t: Tid, u: Tid, v: Tid, name: string, id: Id) returns (m: seq<Move>, r: State)
    requires ListOk(s) && s.mutex == {} && t < |s.pcs| && u < |s.pcs| && v < |s.pcs| && t != u && u != v && t != v
    requires s.pcs[t] == Idle && s.pcs[u] == Idle && s.pcs[v] == Idle && id !in s.busy
    requires var k := Position(s.list, s.names, name); k < |s.list| && s.list[k] == id
    ensures Exec(s, m) == Some(r) && |r.pcs| == |s.pcs| && Uses(r.pcs[u], id) && id in r.freed
  {
    hide Exec, Step, Position, ListOk;
    m := EventArrives(s, t, name, id);
    var a := Goto(s, t, EvWait(id)).(flags := s.flags + {id});
    SameList(s, a);
    var more := EventArrives(a, u, name, id);
    m := Then(s, m, more);
    var b := Goto(a, u, EvWait(id)).(flags := a.flags + {id});
    SameList(s, b);
    more := EventEnds(b, t, id);
    m := Then(s, m, more);
    var c := Goto(b, t, Idle).(flags := b.flags - {id});
    SameList(s, c);
    more := UnregisterFrees(c, v, name, id);
    m := Then(s, m, more);
    r := Goto(c, v, Idle).(list := Without(c.list, id), freed := c.freed + {id});
    assert Uses(r.pcs[u], id);
  }

  lemma SameList(s: State, r: State)
    requires ListOk(s) && r.list == s.list && r.names == s.names
    ensures ListOk(r)
  {
  }

  lemma Then(s: State, a: seq<Move>, b: seq<Move>) returns (m: seq<Move>)
    requires Exec(s, a).Some?
    ensures Exec(s, m) == Exec(Exec(s, a).value, b)
  {
    ExecMore(s, a, b);
    m := a + b;
  }

  // A name that is not on the list is registered.
  lemma Registers(s: State, t: Tid, name: string) returns (m: seq<Move>)
    requires t < |s.pcs| && s.pcs[t] == Idle && s.mutex == {} && s.list == []
    ensures var id := |s.names|; Exec(s, m) == Some(s.(list := [id], names := s.names + [name]))
  {
    hide Exec, Position;
    var id := |s.names|;
    m := ExecNothing(s);
    var n := s;
    m, n := Forward(s, m, n, t, RegLock(name));
    m, n := Forward(s, m, n, t, Idle);
    assert n == Goto(s, t, RegCheck(name)).(mutex := {t});
    m, n := Forward(s, m, n, t, Idle);
    m, n := Forward(s, m, n, t, Idle);
    assert n == Goto(s, t, RegCreate(name));
    m, n := Forward(s, m, n, t, Idle);
    var a := Goto(s, t, RegLockAgain(id)).(names := s.names + [name]);
    assert n == a;
    var more := RegisterEnds(a, t, id);
    m := Then(s, m, more);
    assert Goto(a, t, Idle).(list := [id]) == s.(list := [id], names := s.names + [name]);
  }

  lemma RegisterEnds(s: State, t: Tid, id: Id) returns (m: seq<Move>)
    requires t < |s.pcs| && s.pcs[t] == RegLockAgain(id) && s.mutex == {} && s.list == [] && id < |s.names|
    ensures Exec(s, m) == Some(Goto(s, t, Idle).(list := [id]))
  {
    hide Exec, Position;
    m := ExecNothing(s);
    var n := s;
    m, n := Forward(s, m, n, t, Idle);
    m, n := Forward(s, m, n, t, Idle);
    assert n == Goto(s, t, RegAdd(id)).(mutex := {t});
    m, n := Forward(s, m, n, t, Idle);
    assert n == Goto(s, t, RegAdded).(mutex := {t}, list := [id]);
    m, n := Forward(s, m, n, t, Idle);
    assert n == Goto(s, t, Idle).(list := [id]);
  }

  // The states that a list of moves goes through.
  function Trace(s: State, moves: seq<Move>): (r: seq<State>)
    requires Exec(s, moves).Some?
    ensures |r| == |moves| + 1 && r[0] == s && r[|moves|] == Exec(s, moves).value
    decreases |moves|
  {
    if moves == [] then [s] else [s] + Trace(Step(s, moves[0].thread, moves[0].start).value, moves[1..])
  }

  lemma {:induction false} TraceSteps(s: State, moves: seq<Move>, i: nat)
    requires Exec(s, moves).Some? && i < |moves|
    ensures var r := Trace(s, moves);
      && moves[i].thread < |r[i].pcs| && ListOk(r[i])
      && Step(r[i], moves[i].thread, moves[i].start) == Some(r[i + 1])
    decreases i
  {
    hide Step;
    if i > 0 {
      TraceSteps(Step(s, moves[0].thread, moves[0].start).value, moves[1..], i - 1);
    }
  }

  /** The flag is one bit, so it does not protect a set on which two events are handled at
      a time: there is a run of three threads that registers a set, begins two events on
      it, ends one, unregisters the set, and leaves the other event with a set that is
      freed.
   */
  lemma TwoEventsAreNotSafe(name: string) returns (states: seq<State>, moves: seq<Move>)
    ensures Run(states, moves) && states[0] == Initial(3)
    ensures var last := states[|moves|]; InUse(last, 0) && 0 in last.freed && 0 !in last.list && !EventsAreSafe(last)
  {
    hide Exec, Step, Position, Without;
    var s := Initial(3);
    moves := Registers(s, 0, name);
    var a := s.(list := [0], names := [name]);
    assert s.names + [name] == [name];
    assert a.names[a.list[0]] == name;
    var more, r := OrphanedEvent(a, 0, 1, 2, name, 0);
    moves := Then(s, moves, more);
    states := Trace(s, moves);
    forall i | 0 <= i < |moves|
      ensures moves[i].thread < |states[i].pcs| && ListOk(states[i])
              && Step(states[i], moves[i].thread, moves[i].start) == Some(states[i + 1])
    {
      TraceSteps(s, moves, i);
    }
    assert Uses(r.pcs[1], 0);
    ListIsAlwaysSound(states, moves, |moves|);
    assert !Guarded(r, 0);
  }
}
