/** What the in-use bit of a set is for: while process_event of
    lib/events/libdmraid-events-isw.c handles an event on a set, the set stays on the
    list and is not freed. When it does, exactly.
 */
module DsoEvents {
  import opened DsoProtocol
  import opened Optional

  // A thread between setting and clearing the flag of a set.
  predicate Uses(pc: Pc, id: Id) {
    match pc
    case EvRelease(i) => i == id
    case EvWait(i) => i == id
    case EvProcess(i) => i == id
    case EvClear(i) => i == id
    case _ => false
  }

  predicate InUse(s: State, id: Id) {
    exists u :: 0 <= u < |s.pcs| && Uses(s.pcs[u], id)
  }

  // A set on which an event is handled is flagged, on the list, and not freed.
  predicate Guarded(s: State, id: Id) {
    InUse(s, id) ==> id in s.flags && id in s.list && id !in s.freed
  }

  ghost predicate EventsAreSafe(s: State) {
    forall id :: Guarded(s, id)
  }

  // The step takes the protection of a set away: the flag is cleared while another thread
  // uses the set, or the set is lost behind a set named by a blank.
  predicate Exposes(s: State, t: Tid, id: Id)
    requires t < |s.pcs| && ListOk(s)
  {
    match s.pcs[t]
    case EvClear(i) => i == id && exists u :: 0 <= u < |s.pcs| && u != t && Uses(s.pcs[u], id)
    case RegAdd(_) => InUse(s, id) && id in s.list[Kept(s.list, s.names)..]
    case _ => false
  }

  // The event that a thread begins to handle.
  predicate Begins(pc: Pc, id: Id) {
    pc == EvMark(id)
  }

  // A step moves its own thread only.
  lemma OthersStay(s: State, t: Tid, start: Pc)
    requires t < |s.pcs| && ListOk(s) && Step(s, t, start).Some?
    ensures var r := Step(s, t, start).value; |r.pcs| == |s.pcs| && r.pcs == s.pcs[t := r.pcs[t]]
  {
    hide Position, Added, Without;
  }

  lemma UsesAfter(s: State, t: Tid, start: Pc, id: Id)
    requires t < |s.pcs| && ListOk(s) && Step(s, t, start).Some?
    ensures |Step(s, t, start).value.pcs| == |s.pcs|
    ensures Uses(Step(s, t, start).value.pcs[t], id)
            <==> (Uses(s.pcs[t], id) && !s.pcs[t].EvClear?) || Begins(s.pcs[t], id)
  {
    hide Position, Added, Without;
  }

  // Who uses a set after a step.
  lemma InUseAfter(s: State, t: Tid, start: Pc, id: Id)
    requires t < |s.pcs| && ListOk(s) && Step(s, t, start).Some?
    ensures InUse(Step(s, t, start).value, id)
            <==> Begins(s.pcs[t], id)
                 || exists u :: 0 <= u < |s.pcs| && Uses(s.pcs[u], id) && (u != t || !s.pcs[u].EvClear?)
  {
    hide Step, Begins, Uses;
    OthersStay(s, t, start);
    UsesAfter(s, t, start, id);
    var r := Step(s, t, start).value;
    if InUse(r, id) {
      var u :| 0 <= u < |r.pcs| && Uses(r.pcs[u], id);
      if !Begins(s.pcs[t], id) {
        assert Uses(s.pcs[u], id) && (u != t || !s.pcs[u].EvClear?);
      }
    }
    if Begins(s.pcs[t], id) {
      assert Uses(r.pcs[t], id);
    }
    forall u | 0 <= u < |s.pcs| && Uses(s.pcs[u], id) && (u != t || !s.pcs[u].EvClear?) ensures InUse(r, id) {
      assert Uses(r.pcs[u], id);
    }
  }

  // The fields that the protection speaks of, after a step of another kind.
  lemma OtherSteps(s: State, t: Tid, start: Pc)
    requires t < |s.pcs| && ListOk(s) && Step(s, t, start).Some?
    ensures var r, pc := Step(s, t, start).value, s.pcs[t];
      && (!pc.RegAdd? && !pc.UnUnlink? ==> r.list == s.list)
      && (!pc.EvMark? && !pc.EvClear? ==> r.flags == s.flags)
      && (!pc.RegDestroy? && !pc.UnFree? ==> r.freed == s.freed)
  {
    hide Step;
    var pc := s.pcs[t];
    if !pc.RegAdd? && !pc.UnUnlink? {
      ListAfter(s, t, start);
    }
    if !pc.EvMark? && !pc.EvClear? {
      FlagsAfter(s, t, start);
    }
    if !pc.RegDestroy? && !pc.UnFree? {
      FreedAfter(s, t, start);
    }
  }

  lemma ListAfter(s: State, t: Tid, start: Pc)
    requires t < |s.pcs| && ListOk(s) && Step(s, t, start).Some? && !s.pcs[t].RegAdd? && !s.pcs[t].UnUnlink?
    ensures Step(s, t, start).value.list == s.list
  {
    hide Position, Added, Without;
  }

  lemma FlagsAfter(s: State, t: Tid, start: Pc)
    requires t < |s.pcs| && ListOk(s) && Step(s, t, start).Some? && !s.pcs[t].EvMark? && !s.pcs[t].EvClear?
    ensures Step(s, t, start).value.flags == s.flags
  {
    hide Position, Added, Without;
  }

  lemma FreedAfter(s: State, t: Tid, start: Pc)
    requires t < |s.pcs| && ListOk(s) && Step(s, t, start).Some? && !s.pcs[t].RegDestroy? && !s.pcs[t].UnFree?
    ensures Step(s, t, start).value.freed == s.freed
  {
    hide Position, Added, Without;
  }

  lemma ClearGuardsIff(s: State, t: Tid, start: Pc, id: Id)
    requires Inv(s) && Guarded(s, id) && t < |s.pcs| && s.pcs[t].EvClear?
    ensures Guarded(Step(s, t, start).value, id) <==> !Exposes(s, t, id)
  {
    hide Inv, InUse;
    InvGives(s, t);
    InUseAfter(s, t, start, id);
    var r := Step(s, t, start).value;
    if InUse(r, id) {
      var u :| 0 <= u < |s.pcs| && Uses(s.pcs[u], id) && (u != t || !s.pcs[u].EvClear?);
      UserIsInUse(s, u, id);
    }
  }

  lemma UserIsInUse(s: State, u: Tid, id: Id)
    requires u < |s.pcs| && Uses(s.pcs[u], id)
    ensures InUse(s, id)
  {
  }

  lemma SplitAt(list: seq<Id>, k: nat, id: Id)
    requires k <= |list| && forall i, j :: 0 <= i < j < |list| ==> list[i] != list[j]
    ensures id in list ==> (id in list[..k] <==> id !in list[k..])
  {
    if id in list {
      var i :| 0 <= i < |list| && list[i] == id;
      if i < k {
        assert list[..k][i] == id;
      } else {
        assert list[k..][i - k] == id;
      }
    }
  }

  lemma AddGuardsIff(s: State, t: Tid, start: Pc, id: Id)
    requires Inv(s) && Guarded(s, id) && t < |s.pcs| && s.pcs[t].RegAdd?
    ensures ListOk(s) && (Guarded(Step(s, t, start).value, id) <==> !Exposes(s, t, id))
  {
    hide InUse, MutexOk, Threads, PrivatesDiffer, Kept;
    InvGives(s, t);
    InUseAfter(s, t, start, id);
    SameUsers(s, t, start, id);
    SplitAt(s.list, Kept(s.list, s.names), id);
    assert PrivateOf(s.pcs[t]) == Some(s.pcs[t].id);
    var r := Step(s, t, start).value;
    assert r.list == s.list[..Kept(s.list, s.names)] + [s.pcs[t].id];
  }

  // Only process_event changes who uses a set.
  lemma SameUsers(s: State, t: Tid, start: Pc, id: Id)
    requires t < |s.pcs| && ListOk(s) && Step(s, t, start).Some? && !s.pcs[t].EvMark? && !s.pcs[t].EvClear?
    ensures InUse(Step(s, t, start).value, id) <==> InUse(s, id)
  {
    hide Step, Uses;
    InUseAfter(s, t, start, id);
  }

  lemma UnlinkGuards(s: State, t: Tid, start: Pc, id: Id)
    requires Inv(s) && Guarded(s, id) && t < |s.pcs| && s.pcs[t].UnUnlink?
    ensures ListOk(s) && Guarded(Step(s, t, start).value, id)
  {
    hide InUse, MutexOk, Threads, PrivatesDiffer, Without;
    InvGives(s, t);
    SameUsers(s, t, start, id);
    WithoutIs(s.list, s.pcs[t].id);
  }

  lemma FreeGuards(s: State, t: Tid, start: Pc, id: Id)
    requires Inv(s) && Guarded(s, id) && t < |s.pcs| && (s.pcs[t].RegDestroy? || s.pcs[t].UnFree?)
    ensures ListOk(s) && Guarded(Step(s, t, start).value, id)
  {
    hide InUse, MutexOk, Threads, PrivatesDiffer;
    InvGives(s, t);
    SameUsers(s, t, start, id);
  }

  lemma MarkGuards(s: State, t: Tid, start: Pc, id: Id)
    requires Inv(s) && Guarded(s, id) && t < |s.pcs| && s.pcs[t].EvMark?
    ensures ListOk(s) && Guarded(Step(s, t, start).value, id)
  {
    hide InUse, MutexOk, Threads, PrivatesDiffer;
    InvGives(s, t);
    InUseAfter(s, t, start, id);
    if s.pcs[t] != EvMark(id) && InUse(Step(s, t, start).value, id) {
      var u :| 0 <= u < |s.pcs| && Uses(s.pcs[u], id) && (u != t || !s.pcs[u].EvClear?);
      UserIsInUse(s, u, id);
    }
  }

  /** A step leaves a set without its protection exactly when it clears the flag while
      another thread uses the set, or adds a set behind which this one is lost.
   */
  lemma StepGuardsIff(s: State, t: Tid, start: Pc, id: Id)
    requires Inv(s) && Guarded(s, id) && t < |s.pcs| && Step(s, t, start).Some?
    ensures Guarded(Step(s, t, start).value, id) <==> !Exposes(s, t, id)
  {
    hide Inv, InUse, Step, Guarded;
    InvGives(s, t);
    match s.pcs[t]
    case EvClear(_) => ClearGuardsIff(s, t, start, id);
    case RegAdd(_) => AddGuardsIff(s, t, start, id);
    case UnUnlink(_) => UnlinkGuards(s, t, start, id);
    case RegDestroy(_) => FreeGuards(s, t, start, id);
    case UnFree(_) => FreeGuards(s, t, start, id);
    case EvMark(_) => MarkGuards(s, t, start, id);
    case _ => OtherGuards(s, t, start, id);
  }

  lemma OtherGuards(s: State, t: Tid, start: Pc, id: Id)
    requires t < |s.pcs| && ListOk(s) && Step(s, t, start).Some? && Guarded(s, id)
    requires var pc := s.pcs[t];
      !pc.EvMark? && !pc.EvClear? && !pc.RegAdd? && !pc.UnUnlink? && !pc.RegDestroy? && !pc.UnFree?
    ensures Guarded(Step(s, t, start).value, id)
  {
    hide Step, InUse;
    OtherSteps(s, t, start);
    SameUsers(s, t, start, id);
  }

  // ---------------------------------------------------------------- every run

  lemma InitiallyGuarded(threads: nat, id: Id)
    ensures Guarded(Initial(threads), id)
  {
  }

  // As long as no step exposes the set.
  lemma {:induction false} GuardedSoFar(states: seq<State>, moves: seq<Move>, id: Id, i: nat)
    requires Run(states, moves) && i < |states|
    requires forall k :: 0 <= k < i ==> !Exposes(states[k], moves[k].thread, id)
    ensures Guarded(states[i], id)
    decreases i
  {
    hide Step, Initial, Guarded, Exposes, Inv;
    if i == 0 {
      var n: nat :| states[0] == Initial(n);
      InitiallyGuarded(n, id);
    } else {
      GuardedSoFar(states, moves, id, i - 1);
      ListIsAlwaysSound(states, moves, i - 1);
      var m := moves[i - 1];
      assert Step(states[i - 1], m.thread, m.start) == Some(states[i]);
      StepGuardsIff(states[i - 1], m.thread, m.start, id);
    }
  }

  /** Under every interleaving, a set keeps its protection throughout the run exactly when
      no step clears its flag under another event, or loses it behind a blank name.
   */
  lemma SetIsGuardedIff(states: seq<State>, moves: seq<Move>, id: Id)
    requires Run(states, moves)
    ensures (forall i :: 0 <= i < |states| ==> Guarded(states[i], id))
            <==> forall k :: 0 <= k < |moves| ==> !Exposes(states[k], moves[k].thread, id)
  {
    hide Step, Initial, Guarded, Exposes, Inv;
    if forall k :: 0 <= k < |moves| ==> !Exposes(states[k], moves[k].thread, id) {
      forall i | 0 <= i < |states| ensures Guarded(states[i], id) {
        GuardedSoFar(states, moves, id, i);
      }
    }
    if forall i :: 0 <= i < |states| ==> Guarded(states[i], id) {
      forall k | 0 <= k < |moves| ensures !Exposes(states[k], moves[k].thread, id) {
        ListIsAlwaysSound(states, moves, k);
        var m := moves[k];
        assert Step(states[k], m.thread, m.start) == Some(states[k + 1]);
        StepGuardsIff(states[k], m.thread, m.start, id);
      }
    }
  }

  /** And so for all sets at once. */
  lemma EventsAreSafeIff(states: seq<State>, moves: seq<Move>)
    requires Run(states, moves)
    ensures (forall i :: 0 <= i < |states| ==> EventsAreSafe(states[i]))
            <==> forall k, id :: 0 <= k < |moves| ==> !Exposes(states[k], moves[k].thread, id)
  {
    hide Guarded, Exposes;
    if forall i :: 0 <= i < |states| ==> EventsAreSafe(states[i]) {
      forall k, id | 0 <= k < |moves| ensures !Exposes(states[k], moves[k].thread, id) {
        assert forall i :: 0 <= i < |states| ==> EventsAreSafe(states[i]) && Guarded(states[i], id);
        SetIsGuardedIff(states, moves, id);
      }
    }
    if forall k, id :: 0 <= k < |moves| ==> !Exposes(states[k], moves[k].thread, id) {
      forall i, id | 0 <= i < |states| ensures Guarded(states[i], id) {
        SetIsGuardedIff(states, moves, id);
      }
    }
  }

  // ------------------------------------------------------------- single events

  // At most one event is handled on the set at a time.
  predicate SingleEvent(s: State, id: Id) {
    forall t, u :: 0 <= t < |s.pcs| && 0 <= u < |s.pcs| && Uses(s.pcs[t], id) && Uses(s.pcs[u], id) ==> t == u
  }

  // No thread registers a set named by a single blank.
  predicate NoBlank(pc: Pc) {
    match pc
    case RegLock(name) => name != BLANK
    case RegCheck(name) => name != BLANK
    case RegPass(name) => name != BLANK
    case RegCreate(name) => name != BLANK
    case _ => true
  }

  predicate Unblank(s: State) {
    && (forall id :: 0 <= id < |s.names| ==> s.names[id] != BLANK)
    && forall t :: 0 <= t < |s.pcs| ==> NoBlank(s.pcs[t])
  }

  lemma NamesAfter(s: State, t: Tid, start: Pc)
    requires t < |s.pcs| && ListOk(s) && Step(s, t, start).Some?
    ensures Step(s, t, start).value.names == s.names + if s.pcs[t].RegCreate? then [s.pcs[t].name] else []
  {
    hide Position, Added, Without;
  }

  // The name that a thread carries.
  lemma CarriedAfter(s: State, t: Tid, start: Pc)
    requires t < |s.pcs| && ListOk(s) && NoBlank(s.pcs[t]) && NoBlank(start) && Step(s, t, start).Some?
    ensures |Step(s, t, start).value.pcs| == |s.pcs| && NoBlank(Step(s, t, start).value.pcs[t])
  {
    hide Position, Added, Without;
    var pc := s.pcs[t];
    if pc.RegLock? || pc.RegCheck? || pc.RegPass? || pc.Idle? {
    } else {
      var next := Step(s, t, start).value.pcs[t];
      assert !next.RegLock? && !next.RegCheck? && !next.RegPass?;
    }
  }

  lemma StepIsUnblank(s: State, t: Tid, start: Pc)
    requires t < |s.pcs| && ListOk(s) && Unblank(s) && NoBlank(start) && Step(s, t, start).Some?
    ensures Unblank(Step(s, t, start).value)
  {
    hide Step;
    NamesAfter(s, t, start);
    CarriedAfter(s, t, start);
    OthersStay(s, t, start);
    assert NoBlank(s.pcs[t]);
  }

  lemma {:induction false} AlwaysUnblank(states: seq<State>, moves: seq<Move>, i: nat)
    requires Run(states, moves) && i < |states|
    requires forall k :: 0 <= k < |moves| ==> NoBlank(moves[k].start)
    ensures Unblank(states[i])
    decreases i
  {
    hide Step, NoBlank;
    if i == 0 {
      InitiallyUnblank(states[0]);
    } else {
      AlwaysUnblank(states, moves, i - 1);
      var m := moves[i - 1];
      assert Step(states[i - 1], m.thread, m.start) == Some(states[i]);
      StepIsUnblank(states[i - 1], m.thread, m.start);
    }
  }

  lemma InitiallyUnblank(s: State)
    requires exists n: nat :: s == Initial(n)
    ensures Unblank(s)
  {
  }

  lemma NotExposed(s: State, t: Tid, id: Id)
    requires t < |s.pcs| && ListOk(s) && Unblank(s) && SingleEvent(s, id)
    ensures !Exposes(s, t, id)
  {
    if s.pcs[t].RegAdd? {
      assert Kept(s.list, s.names) == |s.list|;
      assert s.list[|s.list|..] == [];
    }
  }

  /** With events on this set handled one at a time, and no set named by a blank, the set
      stays flagged, on the list and allocated while its event is handled, whatever
      happens on other sets.
   */
  lemma SingleEventIsGuarded(states: seq<State>, moves: seq<Move>, id: Id, i: nat)
    requires Run(states, moves) && i < |states|
    requires forall k :: 0 <= k < |moves| ==> SingleEvent(states[k], id) && NoBlank(moves[k].start)
    ensures Guarded(states[i], id)
  {
    hide Step, NoBlank, Initial, Guarded, Exposes, SingleEvent, Unblank;
    forall k | 0 <= k < |moves| ensures !Exposes(states[k], moves[k].thread, id) {
      AlwaysUnblank(states, moves, k);
      NotExposed(states[k], moves[k].thread, id);
    }
    SetIsGuardedIff(states, moves, id);
  }
}
