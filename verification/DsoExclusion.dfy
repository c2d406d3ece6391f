/** What the mutexes of the event library are for, lib/events/libdmraid-events-isw.c: events
    on one set are processed one after the other, and no set structure is forgotten.
 */
module DsoExclusion {
  import opened DsoProtocol
  import opened Optional

  // --------------------------------------------------------- one at a time

  // The mutex of a set is held by the thread that processes an event on it.
  ghost predicate BusyOk(s: State) {
    && (forall id :: id in s.busy ==> s.busy[id] < |s.pcs| && s.pcs[s.busy[id]] == EvProcess(id))
    && forall t :: 0 <= t < |s.pcs| && s.pcs[t].EvProcess? ==> s.pcs[t].id in s.busy && s.busy[s.pcs[t].id] == t
  }

  // What a step does to the mutexes of sets.
  lemma StepBusyIs(s: State, t: Tid, start: Pc)
    requires t < |s.pcs| && ListOk(s) && Step(s, t, start).Some?
    ensures var r := Step(s, t, start).value;
      && |r.pcs| == |s.pcs| && r.pcs == s.pcs[t := r.pcs[t]]
      && match s.pcs[t]
         case EvWait(id) => id !in s.busy && r.busy == s.busy[id := t] && r.pcs[t] == EvProcess(id)
         case EvProcess(id) => r.busy == s.busy - {id} && !r.pcs[t].EvProcess?
         case _ => r.busy == s.busy && !r.pcs[t].EvProcess?
  {
    hide Position, Added, Without;
  }

  lemma BusyStays(s: State, t: Tid, start: Pc)
    requires t < |s.pcs| && ListOk(s) && Step(s, t, start).Some? && BusyOk(s)
    ensures BusyOk(Step(s, t, start).value)
  {
    hide Step;
    StepBusyIs(s, t, start);
  }

  lemma {:induction false} BusyThroughout(states: seq<State>, moves: seq<Move>, i: nat)
    requires Run(states, moves) && i < |states|
    ensures BusyOk(states[i])
    decreases i
  {
    hide Step;
    if i > 0 {
      BusyThroughout(states, moves, i - 1);
      var m := moves[i - 1];
      assert Step(states[i - 1], m.thread, m.start) == Some(states[i - 1 + 1]);
      BusyStays(states[i - 1], m.thread, m.start);
    }
  }

  /** However the threads are interleaved, two of them never process events on one set at the
      same time.
   */
  lemma EventsAreExclusive(states: seq<State>, moves: seq<Move>, i: nat, t: Tid, u: Tid)
    requires Run(states, moves) && i < |states| && t < |states[i].pcs| && u < |states[i].pcs| && t != u
    ensures !(states[i].pcs[t].EvProcess? && states[i].pcs[u] == states[i].pcs[t])
  {
    hide Step;
    BusyThroughout(states, moves, i);
  }

  // ---------------------------------------------------------- nothing is lost

  // A set is on the list, freed, or known to a thread that has still to add or free it.
  ghost predicate Owned(s: State, id: Id) {
    id in s.list || id in s.freed || exists t :: 0 <= t < |s.pcs| && PrivateOf(s.pcs[t]) == Some(id)
  }

  ghost predicate NoneLost(s: State) {
    forall id :: 0 <= id < |s.names| ==> Owned(s, id)
  }

  // A step that adds a set behind one named by a blank.
  ghost predicate Drops(s: State, t: Tid)
    requires t < |s.pcs| && ListOk(s)
  {
    s.pcs[t].RegAdd? && Kept(s.list, s.names) < |s.list|
  }

  lemma OwnedAfter(s: State, r: State, t: Tid, id: Id)
    requires Owned(s, id) && t < |s.pcs| && |r.pcs| == |s.pcs| && r.pcs == s.pcs[t := r.pcs[t]] && s.freed <= r.freed
    requires id in s.list ==> id in r.list || PrivateOf(r.pcs[t]) == Some(id)
    requires PrivateOf(s.pcs[t]) == Some(id) ==> id in r.list || id in r.freed || PrivateOf(r.pcs[t]) == Some(id)
    ensures Owned(r, id)
  {
    hide PrivateOf;
    if u :| 0 <= u < |s.pcs| && PrivateOf(s.pcs[u]) == Some(id) {
      assert u != t ==> r.pcs[u] == s.pcs[u];
      assert PrivateOf(r.pcs[t]) == Some(id) || u != t || id in r.list || id in r.freed;
    } else {
      assert id in s.list || id in s.freed;
      assert PrivateOf(r.pcs[t]) == Some(id) || id in r.list || id in r.freed;
    }
  }

  // What a step does to the list.
  lemma StepListIs(s: State, t: Tid, start: Pc)
    requires t < |s.pcs| && ListOk(s) && Step(s, t, start).Some?
    ensures var r := Step(s, t, start).value;
      match s.pcs[t]
      case RegAdd(id) => r.list == Added(s.list, s.names, id)
      case UnUnlink(id) => r.list == Without(s.list, id) && r.pcs[t] == UnRelease(id)
      case _ => r.list == s.list
  {
    hide Position, Added, Without;
  }

  // What it does to the set that its thread alone knows.
  lemma StepPrivateIs(s: State, t: Tid, start: Pc)
    requires t < |s.pcs| && ListOk(s) && Step(s, t, start).Some?
    ensures var r := Step(s, t, start).value;
      match s.pcs[t]
      case RegCreate(name) =>
        PrivateOf(r.pcs[t]) == Some(|s.names|) && r.names == s.names + [name] && r.freed == s.freed
      case RegAdd(id) => PrivateOf(r.pcs[t]) == None && r.names == s.names && r.freed == s.freed
      case RegDestroy(id) => PrivateOf(r.pcs[t]) == None && r.names == s.names && r.freed == s.freed + {id}
      case UnFree(id) => PrivateOf(r.pcs[t]) == None && r.names == s.names && r.freed == s.freed + {id}
      case UnUnlink(id) => PrivateOf(r.pcs[t]) == Some(id) && r.names == s.names && r.freed == s.freed
      case _ => PrivateOf(r.pcs[t]) == PrivateOf(s.pcs[t]) && r.names == s.names && r.freed == s.freed
  {
    hide Position, Added, Without;
  }

  lemma SoundGives(s: State, t: Tid)
    requires Inv(s) && t < |s.pcs|
    ensures ListOk(s) && (forall i, j :: 0 <= i < j < |s.list| ==> s.list[i] != s.list[j])
    ensures forall x :: x in s.list ==> x !in s.freed
    ensures forall u, x :: 0 <= u < |s.pcs| && x in s.list ==> PrivateOf(s.pcs[u]) != Some(x)
  {
    hide PrivateOf;
    forall u | 0 <= u < |s.pcs| ensures PcOk(s, s.pcs[u]) {
      InvGives(s, u);
    }
  }

  // A set that is added, and those that are cut off then.
  lemma AddLosesIff(s: State, r: State, t: Tid, id: Id)
    requires Inv(s) && NoneLost(s) && t < |s.pcs| && s.pcs[t] == RegAdd(id) && ListOk(s)
    requires |r.pcs| == |s.pcs| && r.pcs == s.pcs[t := r.pcs[t]] && PrivateOf(r.pcs[t]) == None
    requires r.names == s.names && r.freed == s.freed && r.list == Added(s.list, s.names, id)
    ensures NoneLost(r) <==> !Drops(s, t)
  {
    hide Kept, Inv;
    SoundGives(s, t);
    var k := Kept(s.list, s.names);
    if k < |s.list| {
      var x := s.list[k];
      InvGives(s, t);
      assert x != id by { assert PrivateOf(s.pcs[t]) == Some(id); }
      assert x !in r.list;
      assert !Owned(r, x);
    } else {
      assert s.list[..k] == s.list;
      assert r.list[|s.list|] == id;
      forall y | 0 <= y < |r.names| ensures Owned(r, y) {
        assert y in s.list ==> y in r.list;
        OwnedAfter(s, r, t, y);
      }
    }
  }

  lemma OtherLosesNone(s: State, t: Tid, start: Pc)
    requires Inv(s) && NoneLost(s) && t < |s.pcs| && ListOk(s) && Step(s, t, start).Some? && !s.pcs[t].RegAdd?
    ensures NoneLost(Step(s, t, start).value)
  {
    hide Step, Inv, PrivateOf, Without, NoneLost, Owned;
    var r := Step(s, t, start).value;
    StepBusyIs(s, t, start);
    StepListIs(s, t, start);
    StepPrivateIs(s, t, start);
    SoundGives(s, t);
    Unlinks(s, t, r);
    Privates(s, t, r);
    AllOwned(s, r, t);
  }

  lemma Unlinks(s: State, t: Tid, r: State)
    requires t < |s.pcs| && |r.pcs| == |s.pcs| && forall i, j :: 0 <= i < j < |s.list| ==> s.list[i] != s.list[j]
    requires match s.pcs[t]
             case UnUnlink(id) => r.list == Without(s.list, id) && PrivateOf(r.pcs[t]) == Some(id)
             case RegAdd(_) => false
             case _ => r.list == s.list
    ensures forall x :: x in s.list ==> x in r.list || PrivateOf(r.pcs[t]) == Some(x)
  {
    hide PrivateOf, Without;
    if s.pcs[t].UnUnlink? {
      WithoutIs(s.list, s.pcs[t].id);
    }
  }

  // The private set of the thread stays private or is freed, and a new one is private.
  lemma Privates(s: State, t: Tid, r: State)
    requires t < |s.pcs| && |r.pcs| == |s.pcs|
    requires match s.pcs[t]
             case RegCreate(name) =>
               PrivateOf(r.pcs[t]) == Some(|s.names|) && r.names == s.names + [name] && r.freed == s.freed
             case RegAdd(_) => false
             case RegDestroy(id) => r.names == s.names && r.freed == s.freed + {id}
             case UnFree(id) => r.names == s.names && r.freed == s.freed + {id}
             case UnUnlink(id) => r.names == s.names && r.freed == s.freed
             case _ => PrivateOf(r.pcs[t]) == PrivateOf(s.pcs[t]) && r.names == s.names && r.freed == s.freed
    ensures s.freed <= r.freed && |s.names| <= |r.names| <= |s.names| + 1
    ensures |r.names| > |s.names| ==> PrivateOf(r.pcs[t]) == Some(|s.names|)
    ensures forall x :: PrivateOf(s.pcs[t]) == Some(x) ==> x in r.freed || PrivateOf(r.pcs[t]) == Some(x)
  {
  }

  lemma AllOwned(s: State, r: State, t: Tid)
    requires NoneLost(s) && t < |s.pcs| && |r.pcs| == |s.pcs| && r.pcs == s.pcs[t := r.pcs[t]] && s.freed <= r.freed
    requires |s.names| <= |r.names| <= |s.names| + 1
    requires |r.names| > |s.names| ==> PrivateOf(r.pcs[t]) == Some(|s.names|)
    requires forall x :: x in s.list ==> x in r.list || PrivateOf(r.pcs[t]) == Some(x)
    requires forall x :: PrivateOf(s.pcs[t]) == Some(x) ==> x in r.freed || PrivateOf(r.pcs[t]) == Some(x)
    ensures NoneLost(r)
  {
    hide PrivateOf;
    forall y | 0 <= y < |r.names| ensures Owned(r, y) {
      if y < |s.names| {
        OwnedAfter(s, r, t, y);
      }
    }
  }

  /** A step loses a set exactly when it adds one while a set named by a blank is on the list
      with others behind it.
   */
  lemma StepLosesIff(s: State, t: Tid, start: Pc)
    requires Inv(s) && NoneLost(s) && t < |s.pcs| && ListOk(s) && Step(s, t, start).Some?
    ensures NoneLost(Step(s, t, start).value) <==> !Drops(s, t)
  {
    hide Step, Inv, NoneLost;
    if s.pcs[t].RegAdd? {
      StepBusyIs(s, t, start);
      StepListIs(s, t, start);
      StepPrivateIs(s, t, start);
      AddLosesIff(s, Step(s, t, start).value, t, s.pcs[t].id);
    } else {
      OtherLosesNone(s, t, start);
    }
  }

  lemma {:induction false} NoneLostSoFar(states: seq<State>, moves: seq<Move>, i: nat)
    requires Run(states, moves) && i < |states|
    requires forall k :: 0 <= k < i ==> !Drops(states[k], moves[k].thread)
    ensures NoneLost(states[i])
    decreases i
  {
    hide Step, Drops, Inv;
    if i > 0 {
      NoneLostSoFar(states, moves, i - 1);
      ListIsAlwaysSound(states, moves, i - 1);
      var m := moves[i - 1];
      assert Step(states[i - 1], m.thread, m.start) == Some(states[i - 1 + 1]);
      StepLosesIff(states[i - 1], m.thread, m.start);
    }
  }

  /** Under every interleaving each set that was ever allocated is on the list, freed, or in the
      hands of a thread, exactly when no step adds a set behind one named by a blank.
   */
  lemma NothingIsLostIff(states: seq<State>, moves: seq<Move>)
    requires Run(states, moves)
    ensures (forall i :: 0 <= i < |states| ==> NoneLost(states[i]))
            <==> forall k :: 0 <= k < |moves| ==> !Drops(states[k], moves[k].thread)
  {
    hide Step, Drops, Inv, NoneLost;
    if forall k :: 0 <= k < |moves| ==> !Drops(states[k], moves[k].thread) {
      forall i | 0 <= i < |states| ensures NoneLost(states[i]) {
        NoneLostSoFar(states, moves, i);
      }
    }
    if forall i :: 0 <= i < |states| ==> NoneLost(states[i]) {
      forall k | 0 <= k < |moves| ensures !Drops(states[k], moves[k].thread) {
        ListIsAlwaysSound(states, moves, k);
        assert NoneLost(states[k]) && NoneLost(states[k + 1]);
        StepLosesIff(states[k], moves[k].thread, moves[k].start);
      }
    }
  }

  // ------------------------------------------------------------ the right set

  // A set of a name is on the list.
  ghost predicate Listed(s: State, name: string)
    requires ListOk(s)
  {
    exists i :: 0 <= i < |s.list| && s.names[s.list[i]] == name
  }

  ghost predicate Finds(s: State, id: Id, name: string) {
    id < |s.names| && id in s.list && s.names[id] == name
  }

  /** A call goes on with a listed set of the name it was given, and gives up exactly when there
      is none; registering, the other way round, goes on when the name is free, before a set is
      created and once more before it is added, and destroys what it created otherwise.
   */
  lemma CallsFindTheirSet(s: State, t: Tid)
    requires t < |s.pcs| && ListOk(s) && Step(s, t, Idle).Some?
    ensures var pc := Step(s, t, Idle).value.pcs[t];
      match s.pcs[t]
      case UnFind(name) => if Listed(s, name) then pc.UnTest? && Finds(s, pc.id, name) else pc == UnFail
      case EvFind(name) => if Listed(s, name) then pc.EvMark? && Finds(s, pc.id, name) else pc == EvFail
      case RegCheck(name) => pc == if Listed(s, name) then RegFail else RegPass(name)
      case RegCheckAgain(id) => id < |s.names| && pc == if Listed(s, s.names[id]) then RegLose(id) else RegAdd(id)
      case UnTest(id) => pc == if id in s.flags then UnFail else UnUnlink(id)
      case _ => true
  {
    hide Added, Without;
    match s.pcs[t]
    case UnFind(name) => PositionIsListed(s, name);
    case EvFind(name) => PositionIsListed(s, name);
    case RegCheck(name) => PositionIsListed(s, name);
    case RegCheckAgain(id) =>
      if id < |s.names| {
        PositionIsListed(s, s.names[id]);
      }
    case _ =>
  }

  lemma PositionIsListed(s: State, name: string)
    requires ListOk(s)
    ensures Position(s.list, s.names, name) < |s.list| <==> Listed(s, name)
  {
    hide Position;
  }
}
