/** Threads of the event library, lib/events/libdmraid-events-isw.c, interleaved in
    any order: register_device, unregister_device and process_event over the list of
    sets, the register mutex and the in-use flags.
 */
module DsoProtocol {
  import DsoList
  import opened Optional

  const BLANK := DsoList.BLANK

  type Id = nat      // a set structure; they are numbered in the order of allocation
  type Tid = nat     // a thread

  /** Where a thread is. Steps whose names begin with Reg, Un and Ev belong to
      register_device, unregister_device and process_event.
   */
  datatype Pc =
    | Idle
    | RegLock(name: string)           // about to lock, for the first check
    | RegCheck(name: string)          // locked
    | RegFail                         // locked, about to unlock and give up
    | RegPass(name: string)           // locked, about to unlock and go on
    | RegCreate(name: string)
    | RegLockAgain(id: Id)            // has created a set
    | RegCheckAgain(id: Id)           // locked
    | RegAdd(id: Id)                  // locked, the name is free
    | RegAdded                        // locked, the set is on the list
    | RegLose(id: Id)                 // locked, another thread was faster
    | RegDestroy(id: Id)
    | UnLock(name: string)
    | UnFind(name: string)            // locked
    | UnTest(id: Id)                  // locked, found
    | UnUnlink(id: Id)                // locked, not in use
    | UnRelease(id: Id)               // locked, unlinked
    | UnFree(id: Id)
    | UnFail                          // locked, about to unlock and give up
    | EvLock(name: string)
    | EvFind(name: string)            // locked
    | EvMark(id: Id)                  // locked, found
    | EvRelease(id: Id)               // locked, flagged
    | EvWait(id: Id)                  // about to lock the set's own mutex
    | EvProcess(id: Id)               // has locked it
    | EvClear(id: Id)                 // has unlocked it, the flag is still to be cleared
    | EvFail                          // locked, about to unlock and return

  datatype State = State(
    list: seq<Id>,                    // the global list
    names: seq<string>,               // of every set that was ever allocated
    flags: set<Id>,                   // the sets whose RS_IN_USE bit is on
    freed: set<Id>,
    mutex: set<Tid>,                  // who holds the register mutex
    busy: map<Id, Tid>,               // who holds the mutex of a set
    pcs: seq<Pc>)

  // ----------------------------------------------------------------- the list

  function Position(list: seq<Id>, names: seq<string>, name: string): (k: nat)
    requires forall i :: 0 <= i < |list| ==> list[i] < |names|
    ensures k <= |list| && (forall i :: 0 <= i < k ==> names[list[i]] != name)
      && (k < |list| ==> names[list[k]] == name)
  {
    if list == [] || names[list[0]] == name then 0 else 1 + Position(list[1..], names, name)
  }

  // How much of the list stays when a set is added: up to the first set named by a blank.
  function Kept(list: seq<Id>, names: seq<string>): (k: nat)
    requires forall i :: 0 <= i < |list| ==> list[i] < |names|
    ensures k <= |list|
  {
    var k := Position(list, names, BLANK);
    if k == 0 && list != [] then 1 else k
  }

  function Added(list: seq<Id>, names: seq<string>, id: Id): seq<Id>
    requires forall i :: 0 <= i < |list| ==> list[i] < |names|
  {
    list[..Kept(list, names)] + [id]
  }

  function Without(list: seq<Id>, id: Id): seq<Id> {
    if list == [] then [] else if list[0] == id then list[1..] else [list[0]] + Without(list[1..], id)
  }

  // ------------------------------------------------------------------- steps

  predicate Holds(pc: Pc) {
    match pc
    case RegCheck(_) => true
    case RegFail => true
    case RegPass(_) => true
    case RegCheckAgain(_) => true
    case RegAdd(_) => true
    case RegAdded => true
    case RegLose(_) => true
    case UnFind(_) => true
    case UnTest(_) => true
    case UnUnlink(_) => true
    case UnRelease(_) => true
    case UnFail => true
    case EvFind(_) => true
    case EvMark(_) => true
    case EvRelease(_) => true
    case EvFail => true
    case _ => false
  }

  function Goto(s: State, t: Tid, pc: Pc): State
    requires t < |s.pcs|
  {
    s.(pcs := s.pcs[t := pc])
  }

  function Locked(s: State, t: Tid, pc: Pc): Option<State>
    requires t < |s.pcs|
  {
    if s.mutex != {} then None else Some(Goto(s, t, pc).(mutex := {t}))
  }

  function Unlocked(s: State, t: Tid, pc: Pc): State
    requires t < |s.pcs|
  {
    Goto(s, t, pc).(mutex := s.mutex - {t})
  }

  predicate ListOk(s: State) {
    forall i :: 0 <= i < |s.list| ==> s.list[i] < |s.names|
  }

  // What the step of a thread does; none when it has to wait.
  function Step(s: State, t: Tid, start: Pc): Option<State>
    requires t < |s.pcs| && ListOk(s)
  {
    match s.pcs[t]
    case Idle => if start.RegLock? || start.UnLock? || start.EvLock? then Some(Goto(s, t, start)) else None
    // register_device
    case RegLock(name) => Locked(s, t, RegCheck(name))
    case RegCheck(name) =>
      Some(Goto(s, t, if Position(s.list, s.names, name) < |s.list| then RegFail else RegPass(name)))
    case RegFail => Some(Unlocked(s, t, Idle))
    case RegPass(name) => Some(Unlocked(s, t, RegCreate(name)))
    case RegCreate(name) => Some(Goto(s, t, RegLockAgain(|s.names|)).(names := s.names + [name]))
    case RegLockAgain(id) => Locked(s, t, RegCheckAgain(id))
    case RegCheckAgain(id) =>
      if id >= |s.names| then None
      else Some(Goto(s, t, if Position(s.list, s.names, s.names[id]) < |s.list| then RegLose(id) else RegAdd(id)))
    case RegAdd(id) => Some(Goto(s, t, RegAdded).(list := Added(s.list, s.names, id)))
    case RegAdded => Some(Unlocked(s, t, Idle))
    case RegLose(id) => Some(Unlocked(s, t, RegDestroy(id)))
    case RegDestroy(id) => Some(Goto(s, t, Idle).(freed := s.freed + {id}))
    // unregister_device
    case UnLock(name) => Locked(s, t, UnFind(name))
    case UnFind(name) =>
      var k := Position(s.list, s.names, name);
      Some(Goto(s, t, if k < |s.list| then UnTest(s.list[k]) else UnFail))
    case UnTest(id) => Some(Goto(s, t, if id in s.flags then UnFail else UnUnlink(id)))
    case UnUnlink(id) => Some(Goto(s, t, UnRelease(id)).(list := Without(s.list, id)))
    case UnRelease(id) => Some(Unlocked(s, t, UnFree(id)))
    case UnFree(id) => Some(Goto(s, t, Idle).(freed := s.freed + {id}))
    case UnFail => Some(Unlocked(s, t, Idle))
    // process_event
    case EvLock(name) => Locked(s, t, EvFind(name))
    case EvFind(name) =>
      var k := Position(s.list, s.names, name);
      Some(Goto(s, t, if k < |s.list| then EvMark(s.list[k]) else EvFail))
    case EvMark(id) => Some(Goto(s, t, EvRelease(id)).(flags := s.flags + {id}))
    case EvRelease(id) => Some(Unlocked(s, t, EvWait(id)))
    case EvWait(id) => if id in s.busy then None else Some(Goto(s, t, EvProcess(id)).(busy := s.busy[id := t]))
    case EvProcess(id) => Some(Goto(s, t, EvClear(id)).(busy := s.busy - {id}))
    case EvClear(id) => Some(Goto(s, t, Idle).(flags := s.flags - {id}))
    case EvFail => Some(Unlocked(s, t, Idle))
  }

  // The list holds different sets with different names, none of them freed.
  ghost predicate ListIsSound(s: State) {
    && ListOk(s)
    && (forall i, j :: 0 <= i < j < |s.list| ==> s.names[s.list[i]] != s.names[s.list[j]])
    && forall i :: 0 <= i < |s.list| ==> s.list[i] !in s.freed
  }

  // ------------------------------------------------------------ the invariant

  // The set that a thread alone knows: not yet, or no longer, on the list.
  function PrivateOf(pc: Pc): Option<Id> {
    match pc
    case RegLockAgain(id) => Some(id)
    case RegCheckAgain(id) => Some(id)
    case RegAdd(id) => Some(id)
    case RegLose(id) => Some(id)
    case RegDestroy(id) => Some(id)
    case UnRelease(id) => Some(id)
    case UnFree(id) => Some(id)
    case _ => None
  }

  // What a thread knows at each place.
  ghost predicate PcOk(s: State, pc: Pc)
    requires ListOk(s)
  {
    && (PrivateOf(pc).Some? ==> var id := PrivateOf(pc).value; id < |s.names| && id !in s.list && id !in s.freed)
    && match pc
       case RegAdd(id) => forall i :: 0 <= i < |s.list| ==> s.names[s.list[i]] != s.names[id]
       case UnTest(id) => id in s.list
       case UnUnlink(id) => id in s.list && id !in s.flags
       case EvMark(id) => id in s.list
       case _ => true
  }

  ghost predicate MutexOk(s: State) {
    && (forall t :: 0 <= t < |s.pcs| ==> (Holds(s.pcs[t]) <==> t in s.mutex))
    && forall t, u :: t in s.mutex && u in s.mutex ==> t == u
  }

  ghost predicate Threads(s: State)
    requires ListOk(s)
  {
    forall t :: 0 <= t < |s.pcs| ==> PcOk(s, s.pcs[t])
  }

  // No two threads know the same private set.
  ghost predicate PrivatesDiffer(s: State) {
    forall t, u :: 0 <= t < u < |s.pcs| && PrivateOf(s.pcs[t]).Some? ==> PrivateOf(s.pcs[t]) != PrivateOf(s.pcs[u])
  }

  ghost predicate FreedOk(s: State) {
    forall id :: id in s.freed ==> id < |s.names|
  }

  ghost predicate Inv(s: State) {
    ListIsSound(s) && FreedOk(s) && MutexOk(s) && Threads(s) && PrivatesDiffer(s)
  }

  lemma MutexAfter(s: State, t: Tid, pc: Pc)
    requires MutexOk(s) && t < |s.pcs|
    ensures Holds(pc) == Holds(s.pcs[t]) ==> MutexOk(Goto(s, t, pc))
    ensures Holds(pc) && s.mutex == {} ==> MutexOk(Goto(s, t, pc).(mutex := {t}))
    ensures Holds(s.pcs[t]) && !Holds(pc) ==> MutexOk(Unlocked(s, t, pc))
  {
  }

  // A step that only moves a thread, and perhaps takes or releases the register mutex.
  lemma Moves(s: State, t: Tid, pc: Pc, mutex: set<Tid>)
    requires Inv(s) && t < |s.pcs| && PcOk(s, pc) && MutexOk(Goto(s, t, pc).(mutex := mutex))
    requires PrivateOf(pc).None? || PrivateOf(pc) == PrivateOf(s.pcs[t])
    ensures Inv(Goto(s, t, pc).(mutex := mutex))
  {
    hide Holds;
  }

  lemma {:induction false} WithoutIs(list: seq<Id>, id: Id)
    requires forall i, j :: 0 <= i < j < |list| ==> list[i] != list[j]
    ensures forall x :: x in Without(list, id) <==> x in list && x != id
    ensures |Without(list, id)| <= |list|
    ensures forall i, j :: 0 <= i < j < |Without(list, id)| ==> Without(list, id)[i] != Without(list, id)[j]
  {
    if list != [] {
      var rest := list[1..];
      assert list == [list[0]] + rest;
      if list[0] == id {
        assert forall x :: x in rest ==> x != id;
      } else {
        WithoutIs(rest, id);
        var r := Without(rest, id);
        assert list[0] !in rest;
        assert forall x :: x in [list[0]] + r <==> x == list[0] || x in r;
      }
    }
  }

  lemma StepRegCreate(s: State, t: Tid, name: string)
    requires Inv(s) && t < |s.pcs| && s.pcs[t] == RegCreate(name)
    ensures Inv(Goto(s, t, RegLockAgain(|s.names|)).(names := s.names + [name]))
  {
    var id := |s.names|;
    var r := Goto(s, t, RegLockAgain(id)).(names := s.names + [name]);
  }

  lemma StepRegAdd(s: State, t: Tid, id: Id)
    requires Inv(s) && t < |s.pcs| && s.pcs[t] == RegAdd(id)
    ensures Inv(Goto(s, t, RegAdded).(list := Added(s.list, s.names, id)))
  {
    hide Kept;
    var list := Added(s.list, s.names, id);
    var r := Goto(s, t, RegAdded).(list := list);
    assert PcOk(s, s.pcs[t]);
    assert forall x :: x in list ==> x in s.list || x == id;
    MutexAfter(s, t, RegAdded);
    forall u | 0 <= u < |r.pcs| ensures PcOk(r, r.pcs[u]) {
      AddedPc(s, t, id, u, list);
    }
  }

  // Another thread does not hold the mutex, and does not know the set that is added.
  lemma AddedPc(s: State, t: Tid, id: Id, u: Tid, list: seq<Id>)
    requires Inv(s) && t < |s.pcs| && s.pcs[t] == RegAdd(id) && u < |s.pcs|
    requires ListOk(s.(list := list)) && forall x :: x in list ==> x in s.list || x == id
    ensures PcOk(s.(list := list), Goto(s, t, RegAdded).pcs[u])
  {
    assert PcOk(s, s.pcs[t]);
    if u != t {
      assert PcOk(s, s.pcs[u]);
    }
  }

  lemma StepUnUnlink(s: State, t: Tid, id: Id)
    requires Inv(s) && t < |s.pcs| && s.pcs[t] == UnUnlink(id)
    ensures Inv(Goto(s, t, UnRelease(id)).(list := Without(s.list, id)))
  {
    hide Without;
    WithoutIs(s.list, id);
    var list := Without(s.list, id);
    var r := Goto(s, t, UnRelease(id)).(list := list);
    assert forall i :: 0 <= i < |list| ==> list[i] in s.list;
    MutexAfter(s, t, UnRelease(id));
    forall u | 0 <= u < |r.pcs| ensures PcOk(r, r.pcs[u]) && PrivateOf(s.pcs[u]) != Some(id) {
      UnlinkedPc(s, t, id, u, list);
    }
  }

  // Another thread does not hold the mutex, so it knows nothing about the list.
  lemma UnlinkedPc(s: State, t: Tid, id: Id, u: Tid, list: seq<Id>)
    requires Inv(s) && t < |s.pcs| && s.pcs[t] == UnUnlink(id) && u < |s.pcs|
    requires ListOk(s.(list := list)) && forall x :: x in list <==> x in s.list && x != id
    ensures PcOk(s.(list := list), Goto(s, t, UnRelease(id)).pcs[u]) && PrivateOf(s.pcs[u]) != Some(id)
  {
    assert PcOk(s, s.pcs[t]) && PcOk(s, s.pcs[u]);
    var k :| 0 <= k < |s.list| && s.list[k] == id;
  }

  lemma StepFree(s: State, t: Tid, id: Id)
    requires Inv(s) && t < |s.pcs| && PrivateOf(s.pcs[t]) == Some(id) && !Holds(s.pcs[t])
    ensures Inv(Goto(s, t, Idle).(freed := s.freed + {id}))
  {
  }

  lemma StepEvMark(s: State, t: Tid, id: Id)
    requires Inv(s) && t < |s.pcs| && s.pcs[t] == EvMark(id)
    ensures Inv(Goto(s, t, EvRelease(id)).(flags := s.flags + {id}))
  {
  }

  lemma StepEvClear(s: State, t: Tid, id: Id)
    requires Inv(s) && t < |s.pcs| && s.pcs[t] == EvClear(id)
    ensures Inv(Goto(s, t, Idle).(flags := s.flags - {id}))
  {
  }

  // ----------------------------------------------------------------- every run

  // The steps of register_device.
  lemma StepRegister(s: State, t: Tid)
    requires Inv(s) && t < |s.pcs| && Step(s, t, Idle).Some?
    requires s.pcs[t].RegLock? || s.pcs[t].RegCheck? || s.pcs[t].RegFail? || s.pcs[t].RegPass? || s.pcs[t].RegCreate?
             || s.pcs[t].RegLockAgain? || s.pcs[t].RegCheckAgain? || s.pcs[t].RegAdd? || s.pcs[t].RegAdded?
               || s.pcs[t].RegLose?
             || s.pcs[t].RegDestroy?
    ensures Inv(Step(s, t, Idle).value)
  {
    hide Inv, MutexOk, ListIsSound, FreedOk, PrivatesDiffer, Threads;
    InvGives(s, t);
    match s.pcs[t]
    case RegLock(name) => MutexAfter(s, t, RegCheck(name)); Moves(s, t, RegCheck(name), {t});
    case RegCheck(name) =>
      var pc := if Position(s.list, s.names, name) < |s.list| then RegFail else RegPass(name);
      MutexAfter(s, t, pc);
      Moves(s, t, pc, s.mutex);
    case RegFail => MutexAfter(s, t, Idle); Moves(s, t, Idle, s.mutex - {t});
    case RegPass(name) => MutexAfter(s, t, RegCreate(name)); Moves(s, t, RegCreate(name), s.mutex - {t});
    case RegCreate(name) => StepRegCreate(s, t, name);
    case RegLockAgain(id) => MutexAfter(s, t, RegCheckAgain(id)); Moves(s, t, RegCheckAgain(id), {t});
    case RegCheckAgain(id) =>
      var pc := if Position(s.list, s.names, s.names[id]) < |s.list| then RegLose(id) else RegAdd(id);
      MutexAfter(s, t, pc);
      Moves(s, t, pc, s.mutex);
    case RegAdd(id) => StepRegAdd(s, t, id);
    case RegAdded => MutexAfter(s, t, Idle); Moves(s, t, Idle, s.mutex - {t});
    case RegLose(id) => MutexAfter(s, t, RegDestroy(id)); Moves(s, t, RegDestroy(id), s.mutex - {t});
    case RegDestroy(id) => StepFree(s, t, id);
    case _ =>
  }

  lemma InvGives(s: State, t: Tid)
    requires Inv(s) && t < |s.pcs|
    ensures ListOk(s) && MutexOk(s) && PcOk(s, s.pcs[t])
  {
  }

  // The steps of unregister_device.
  lemma StepUnregister(s: State, t: Tid)
    requires Inv(s) && t < |s.pcs| && Step(s, t, Idle).Some?
    requires s.pcs[t].UnLock? || s.pcs[t].UnFind? || s.pcs[t].UnTest? || s.pcs[t].UnUnlink? || s.pcs[t].UnRelease?
             || s.pcs[t].UnFree? || s.pcs[t].UnFail?
    ensures Inv(Step(s, t, Idle).value)
  {
    hide Inv, MutexOk, ListIsSound, FreedOk, PrivatesDiffer, Threads;
    InvGives(s, t);
    match s.pcs[t]
    case UnLock(name) => MutexAfter(s, t, UnFind(name)); Moves(s, t, UnFind(name), {t});
    case UnFind(name) =>
      var k := Position(s.list, s.names, name);
      var pc := if k < |s.list| then UnTest(s.list[k]) else UnFail;
      MutexAfter(s, t, pc);
      Moves(s, t, pc, s.mutex);
    case UnTest(id) =>
      var pc := if id in s.flags then UnFail else UnUnlink(id);
      MutexAfter(s, t, pc);
      Moves(s, t, pc, s.mutex);
    case UnUnlink(id) => StepUnUnlink(s, t, id);
    case UnRelease(id) => MutexAfter(s, t, UnFree(id)); Moves(s, t, UnFree(id), s.mutex - {t});
    case UnFree(id) => StepFree(s, t, id);
    case UnFail => MutexAfter(s, t, Idle); Moves(s, t, Idle, s.mutex - {t});
    case _ =>
  }

  // The steps of process_event.
  lemma StepEvent(s: State, t: Tid)
    requires Inv(s) && t < |s.pcs| && Step(s, t, Idle).Some?
    requires s.pcs[t].EvLock? || s.pcs[t].EvFind? || s.pcs[t].EvMark? || s.pcs[t].EvRelease? || s.pcs[t].EvWait?
             || s.pcs[t].EvProcess? || s.pcs[t].EvClear? || s.pcs[t].EvFail?
    ensures Inv(Step(s, t, Idle).value)
  {
    hide Inv, MutexOk, ListIsSound, FreedOk, PrivatesDiffer, Threads;
    InvGives(s, t);
    match s.pcs[t]
    case EvLock(name) => MutexAfter(s, t, EvFind(name)); Moves(s, t, EvFind(name), {t});
    case EvFind(name) =>
      var k := Position(s.list, s.names, name);
      var pc := if k < |s.list| then EvMark(s.list[k]) else EvFail;
      MutexAfter(s, t, pc);
      Moves(s, t, pc, s.mutex);
    case EvMark(id) => StepEvMark(s, t, id);
    case EvRelease(id) => MutexAfter(s, t, EvWait(id)); Moves(s, t, EvWait(id), s.mutex - {t});
    case EvWait(id) => StepBusy(s, t, EvProcess(id), s.busy[id := t]);
    case EvProcess(id) => StepBusy(s, t, EvClear(id), s.busy - {id});
    case EvClear(id) => StepEvClear(s, t, id);
    case EvFail => MutexAfter(s, t, Idle); Moves(s, t, Idle, s.mutex - {t});
    case _ =>
  }

  // The mutex of the set is taken or released.
  lemma StepBusy(s: State, t: Tid, pc: Pc, busy: map<Id, Tid>)
    requires Inv(s) && t < |s.pcs|
    requires exists id ::
      (s.pcs[t] == EvWait(id) && pc == EvProcess(id)) || (s.pcs[t] == EvProcess(id) && pc == EvClear(id))
    ensures Inv(Goto(s, t, pc).(busy := busy))
  {
    hide Inv, MutexOk, ListIsSound, FreedOk, PrivatesDiffer, Threads;
    InvGives(s, t);
    MutexAfter(s, t, pc);
    Moves(s, t, pc, s.mutex);
    BusyIsFree(Goto(s, t, pc), busy);
  }

  // The claims do not depend on the mutexes of the sets.
  lemma BusyIsFree(s: State, busy: map<Id, Tid>)
    requires Inv(s)
    ensures Inv(s.(busy := busy))
  {
  }

  lemma StepStart(s: State, t: Tid, start: Pc)
    requires Inv(s) && t < |s.pcs| && s.pcs[t] == Idle && (start.RegLock? || start.UnLock? || start.EvLock?)
    ensures Inv(Goto(s, t, start))
  {
    InvGives(s, t);
    MutexAfter(s, t, start);
    Moves(s, t, start, s.mutex);
  }

  /** Every step of every thread keeps the invariant. */
  lemma StepKeeps(s: State, t: Tid, start: Pc)
    requires Inv(s) && t < |s.pcs| && Step(s, t, start).Some?
    ensures Inv(Step(s, t, start).value)
  {
    hide Inv;
    InvGives(s, t);
    var pc := s.pcs[t];
    if pc.Idle? {
      StepStart(s, t, start);
    } else if pc.UnLock? || pc.UnFind? || pc.UnTest? || pc.UnUnlink? || pc.UnRelease? || pc.UnFree? || pc.UnFail? {
      StepUnregister(s, t);
    } else if pc.EvLock? || pc.EvFind? || pc.EvMark? || pc.EvRelease? || pc.EvWait? || pc.EvProcess? || pc.EvClear?
      || pc.EvFail? {
      StepEvent(s, t);
    } else {
      StepRegister(s, t);
    }
  }

  // A thread takes a step, and an idle one begins a call.
  datatype Move = Move(thread: Tid, start: Pc)

  function Initial(threads: nat): State {
    State([], [], {}, {}, {}, map[], seq(threads, t => Idle))
  }

  ghost predicate Run(states: seq<State>, moves: seq<Move>) {
    && |states| == |moves| + 1
    && (exists n: nat :: states[0] == Initial(n))
    && forall i :: 0 <= i < |moves| ==>
      && moves[i].thread < |states[i].pcs| && ListOk(states[i])
      && Step(states[i], moves[i].thread, moves[i].start) == Some(states[i + 1])
  }

  lemma InitialIsSafe(threads: nat)
    ensures Inv(Initial(threads))
  {
  }

  /** However the threads are interleaved, and whatever the names, the list holds sets of
      different names, and none of them is freed.
   */
  lemma {:induction false} ListIsAlwaysSound(states: seq<State>, moves: seq<Move>, i: nat)
    requires Run(states, moves) && i < |states|
    ensures ListIsSound(states[i]) && Inv(states[i])
    decreases i
  {
    hide Step, Initial;
    if i == 0 {
      var n: nat :| states[0] == Initial(n);
      InitialIsSafe(n);
    } else {
      ListIsAlwaysSound(states, moves, i - 1);
      var m := moves[i - 1];
      assert Step(states[i - 1], m.thread, m.start) == Some(states[i]);
      StepKeeps(states[i - 1], m.thread, m.start);
    }
  }
}
