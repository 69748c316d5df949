/**
  The owner mutex as interleaved atomic steps.  Any number of threads, each with
  its own non-zero id, call try_lock and unlock; every access to `locked` and
  `owner` is one step of its own.
 */
module Mutex {
  const OK: int := 0
  const E_PERM: int := -1
  const E_BUSY: int := -16
  const E_INVAL: int := -22
  const E_DEADLK: int := -35

  /**
    Where a thread stands with the mutex: it has won the exchange but not stored
    its id yet (Taking), try_lock has returned OK (Held), unlock has accepted it
    but not cleared the owner yet (Returning), or only `locked` is left to clear
    (Dropping).
   */
  datatype Phase = Free | Taking | Held | Returning | Dropping

  /** `trying`: the exchange of a try_lock has failed and the owner is still to be read. */
  datatype Thread = Thread(phase: Phase, trying: bool)

  datatype State = State(locked: bool, owner: nat, threads: map<nat, Thread>)

  datatype Action =
    | Exchange(id: nat)
    | StoreOwner(id: nat)
    | ReadOwner(id: nat)
    | CheckOwner(id: nat)
    | ClearOwner(id: nat)
    | ClearLocked(id: nat)

  /** Between calls a thread may call; inside a call it takes the next step of that call. */
  predicate Enabled(s: State, a: Action)
  {
    a.id in s.threads &&
    var t := s.threads[a.id];
    match a
    case Exchange(_) => (t.phase.Free? || t.phase.Held?) && !t.trying
    case StoreOwner(_) => t.phase.Taking?
    case ReadOwner(_) => t.trying
    case CheckOwner(_) => (t.phase.Free? || t.phase.Held?) && !t.trying
    case ClearOwner(_) => t.phase.Returning?
    case ClearLocked(_) => t.phase.Dropping?
  }

  function Become(s: State, id: nat, phase: Phase): State
    requires id in s.threads
  {
    s.(threads := s.threads[id := s.threads[id].(phase := phase)])
  }

  function Step(s: State, a: Action): State
    requires Enabled(s, a)
  {
    var t := s.threads[a.id];
    match a
    case Exchange(id) =>
      if !s.locked then Become(s, id, Taking).(locked := true)
      else s.(threads := s.threads[id := t.(trying := true)])
    case StoreOwner(id) => Become(s, id, Held).(owner := id)
    case ReadOwner(id) => s.(threads := s.threads[id := t.(trying := false)])
    case CheckOwner(id) => if s.owner == id then Become(s, id, Returning) else s
    case ClearOwner(id) => Become(s, id, Dropping).(owner := 0)
    case ClearLocked(id) => Become(s, id, Free).(locked := false)
  }

  datatype Result = Returns(rc: int) | Continues

  /** What the call returns if this step ends it. */
  function Outcome(s: State, a: Action): Result
    requires Enabled(s, a)
  {
    match a
    case Exchange(_) => Continues
    case StoreOwner(_) => Returns(OK)
    case ReadOwner(id) => Returns(if s.owner == id then E_DEADLK else E_BUSY)
    case CheckOwner(id) => if s.owner == id then Continues else Returns(E_PERM)
    case ClearOwner(_) => Continues
    case ClearLocked(_) => Returns(OK)
  }

  // ---- the invariant ----

  ghost predicate Engaged(s: State, id: nat)
  {
    id in s.threads && !s.threads[id].phase.Free?
  }

  ghost predicate AtMostOne(s: State)
  {
    forall i, j :: Engaged(s, i) && Engaged(s, j) ==> i == j
  }

  ghost predicate LockedMeansEngaged(s: State)
  {
    s.locked <==> exists i :: Engaged(s, i)
  }

  /** The owner word names the thread whose id is stored and not yet cleared. */
  ghost predicate OwnerIsHolder(s: State)
  {
    && (forall i | i in s.threads :: s.owner == i <==> s.threads[i].phase.Held? || s.threads[i].phase.Returning?)
    && (s.owner != 0 ==> s.owner in s.threads)
  }

  ghost predicate TryingBetween(s: State)
  {
    forall i | i in s.threads && s.threads[i].trying :: s.threads[i].phase.Free? || s.threads[i].phase.Held?
  }

  ghost predicate Inv(s: State)
  {
    0 !in s.threads && AtMostOne(s) && LockedMeansEngaged(s) && OwnerIsHolder(s) && TryingBetween(s)
  }

  function Initial(ids: set<nat>): State
  {
    State(false, 0, map i | i in ids :: Thread(Free, false))
  }

  lemma InitialInv(ids: set<nat>)
    requires 0 !in ids
    ensures Inv(Initial(ids))
  {
  }

  /** A step engages or frees only the thread that takes it. */
  lemma StepEngages(s: State, a: Action)
    requires Inv(s) && Enabled(s, a)
    ensures forall i: nat | i != a.id :: Engaged(Step(s, a), i) == Engaged(s, i)
    ensures Engaged(Step(s, a), a.id) && !Engaged(s, a.id) ==> !s.locked && Step(s, a).locked
    ensures !Engaged(Step(s, a), a.id) && Engaged(s, a.id) ==> !Step(s, a).locked
    ensures Engaged(Step(s, a), a.id) == Engaged(s, a.id) ==> Step(s, a).locked == s.locked
  {
  }

  lemma StepOwner(s: State, a: Action)
    requires Inv(s) && Enabled(s, a)
    ensures OwnerIsHolder(Step(s, a)) && TryingBetween(Step(s, a)) && 0 !in Step(s, a).threads
  {
    assert Engaged(s, a.id) ==> s.locked;
    var s' := Step(s, a);
    forall i | i in s'.threads
      ensures s'.owner == i <==> s'.threads[i].phase.Held? || s'.threads[i].phase.Returning?
    {
      if i != a.id {
        assert s'.threads[i] == s.threads[i];
        assert Engaged(s, i) && Engaged(s, a.id) ==> i == a.id;
      }
    }
  }

  lemma StepKeeps(s: State, a: Action)
    requires Inv(s) && Enabled(s, a)
    ensures Inv(Step(s, a))
  {
    hide Step, Enabled, Engaged, OwnerIsHolder, TryingBetween;
    StepOwner(s, a);
    StepEngages(s, a);
    var s' := Step(s, a);
    assert LockedMeansEngaged(s') by {
      if i: nat :| Engaged(s, i) && i != a.id {
        assert Engaged(s', i);
      }
    }
  }

  // ---- runs ----

  ghost predicate IsRun(s: State, actions: seq<Action>)
    decreases |actions|
  {
    actions != [] ==> Enabled(s, actions[0]) && IsRun(Step(s, actions[0]), actions[1..])
  }

  ghost function Run(s: State, actions: seq<Action>): State
    requires IsRun(s, actions)
    decreases |actions|
  {
    if actions == [] then s else Run(Step(s, actions[0]), actions[1..])
  }

  lemma {:induction false} RunKeeps(s: State, actions: seq<Action>)
    requires Inv(s) && IsRun(s, actions)
    ensures Inv(Run(s, actions))
    decreases |actions|
  {
    hide Inv, Step, Enabled;
    if actions != [] {
      StepKeeps(s, actions[0]);
      RunKeeps(Step(s, actions[0]), actions[1..]);
    }
  }

  /** In every interleaving at most one thread is anywhere between winning the exchange and clearing `locked`. */
  lemma MutualExclusion(ids: set<nat>, actions: seq<Action>, i: nat, j: nat)
    requires 0 !in ids && IsRun(Initial(ids), actions)
    requires Engaged(Run(Initial(ids), actions), i) && Engaged(Run(Initial(ids), actions), j)
    ensures i == j
  {
    InitialInv(ids);
    RunKeeps(Initial(ids), actions);
  }

  /** try_lock reports a deadlock exactly to the thread that holds the mutex, though the owner is read after the exchange. */
  lemma DeadlockExactly(s: State, id: nat)
    requires Inv(s) && Enabled(s, ReadOwner(id))
    ensures Outcome(s, ReadOwner(id)) == Returns(if s.threads[id].phase.Held? then E_DEADLK else E_BUSY)
  {
    assert id in s.threads;
  }

  /** Whether a thread holds the mutex does not change under it: only its own steps change its phase. */
  lemma OthersKeepPhase(s: State, a: Action, id: nat)
    requires Enabled(s, a) && id in s.threads && a.id != id
    ensures id in Step(s, a).threads && Step(s, a).threads[id] == s.threads[id]
  {
  }

  /** unlock is refused, and changes nothing, exactly when the caller does not hold the mutex. */
  lemma UnlockExactly(s: State, id: nat)
    requires Inv(s) && Enabled(s, CheckOwner(id))
    ensures Outcome(s, CheckOwner(id)) == Returns(E_PERM) <==> !s.threads[id].phase.Held?
    ensures Outcome(s, CheckOwner(id)) == Returns(E_PERM) ==> Step(s, CheckOwner(id)) == s
    ensures s.threads[id].phase.Held? ==> Step(s, CheckOwner(id)).threads[id].phase == Returning
  {
    assert id in s.threads;
  }

  /** A locked mutex has an owner exactly outside the two windows around the store and the clearing of the owner. */
  lemma OwnerKnownExactly(s: State)
    requires Inv(s)
    ensures (s.locked ==> s.owner != 0) <==>
      forall i | i in s.threads :: !s.threads[i].phase.Taking? && !s.threads[i].phase.Dropping?
    ensures !s.locked ==> s.owner == 0
  {
    if s.locked {
      var i :| Engaged(s, i);
      assert i in s.threads && i != 0;
      assert forall j | j in s.threads && j != i :: !Engaged(s, j);
      assert s.owner != 0 ==> Engaged(s, s.owner);
    } else {
      assert forall i | i in s.threads :: !Engaged(s, i);
      assert s.owner in s.threads ==> !Engaged(s, s.owner);
    }
  }

  /** Such a window is reached: after one step of one thread the mutex is locked and nobody owns it. */
  lemma WindowIsReached()
    ensures var s := Initial({1});
      IsRun(s, [Exchange(1)]) && Run(s, [Exchange(1)]).locked && Run(s, [Exchange(1)]).owner == 0
  {
    var s := Initial({1});
    var es := [Exchange(1)];
    assert Enabled(s, es[0]) && es[1..] == [];
    assert IsRun(Step(s, es[0]), []);
  }

  // ---- the calls ----

  lemma RunTwo(s: State, a: Action, b: Action)
    requires Enabled(s, a) && Enabled(Step(s, a), b)
    ensures IsRun(s, [a, b]) && Run(s, [a, b]) == Step(Step(s, a), b)
  {
    hide Enabled, Step;
    var es := [a, b];
    var s1 := Step(s, a);
    assert es[1..] == [b] && [b][1..] == [];
    assert IsRun(Step(s1, b), []);
    assert IsRun(s1, [b]) && Run(s1, [b]) == Run(Step(s1, b), []);
    assert Run(s, es) == Run(s1, es[1..]);
  }

  /** The mutex words, with the calls as they run when no other thread interferes. */
  class Lock {
    var locked: bool
    var owner: nat

    constructor ()
      ensures !locked && owner == 0
    {
      locked, owner := false, 0;
    }

    ghost function View(id: nat, phase: Phase): State
      reads this
    {
      State(locked, owner, map[id := Thread(phase, false)])
    }

    /** The call takes the steps of the machine one after the other. */
    method TryLock(id: nat, ghost phase: Phase) returns (rc: int)
      requires phase == Free || phase == Held
      modifies this
      ensures id == 0 ==> rc == E_INVAL && unchanged(this)
      ensures id != 0 && !old(locked) ==>
        rc == OK && IsRun(old(View(id, phase)), [Exchange(id), StoreOwner(id)])
        && View(id, Held) == Run(old(View(id, phase)), [Exchange(id), StoreOwner(id)]) && locked && owner == id
      ensures id != 0 && old(locked) ==> rc == (if owner == id then E_DEADLK else E_BUSY) && unchanged(this)
    {
      if id == 0 {
        return E_INVAL;
      }
      if locked {
        if owner == id {
          return E_DEADLK;
        }
        return E_BUSY;
      }
      ghost var s0 := View(id, phase);
      locked := true;
      owner := id;
      RunTwo(s0, Exchange(id), StoreOwner(id));
      return OK;
    }

    method Unlock(id: nat) returns (rc: int)
      modifies this
      ensures id == 0 ==> rc == E_INVAL && unchanged(this)
      ensures id != 0 && old(owner) != id ==> rc == E_PERM && unchanged(this)
      ensures id != 0 && old(owner) == id ==> rc == OK && !locked && owner == 0
    {
      if id == 0 {
        return E_INVAL;
      }
      if owner != id {
        return E_PERM;
      }
      owner := 0;
      locked := false;
      return OK;
    }
  }
}
