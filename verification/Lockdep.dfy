/**
  The lock-order validator: a bounded stack of the lock classes a thread holds,
  which accepts a class only above the one on top.
 */
module Lockdep {
  const MAX_HELD: nat := 16

  const OK: int := 0
  const E_PERM: int := -1
  const E_INVAL: int := -22
  const E_DEADLK: int := -35
  const E_OVERFLOW: int := -75

  datatype Held = Held(classes: seq<nat>, violations: nat)

  function BeforeAcquire(h: Held, c: nat): (Held, int)
  {
    if c == 0 then (h, E_INVAL)
    else if |h.classes| >= MAX_HELD then (h.(violations := h.violations + 1), E_OVERFLOW)
    else if c in h.classes || (h.classes != [] && c < h.classes[|h.classes| - 1]) then
      (h.(violations := h.violations + 1), E_DEADLK)
    else (h.(classes := h.classes + [c]), OK)
  }

  function AfterRelease(h: Held, c: nat): (Held, int)
  {
    if c == 0 then (h, E_INVAL)
    else if h.classes == [] then (h.(violations := h.violations + 1), E_PERM)
    else if h.classes[|h.classes| - 1] != c then (h.(violations := h.violations + 1), E_DEADLK)
    else (h.(classes := h.classes[..|h.classes| - 1]), OK)
  }

  /** Classes are non-zero, strictly increasing and at most 16. */
  ghost predicate Increasing(h: Held)
  {
    && |h.classes| <= MAX_HELD
    && (forall i | 0 <= i < |h.classes| :: h.classes[i] > 0)
    && (forall i, j | 0 <= i < j < |h.classes| :: h.classes[i] < h.classes[j])
  }

  /** On such a stack a class is accepted exactly when it is above every class held and there is room. */
  lemma AcceptsExactly(h: Held, c: nat)
    requires Increasing(h)
    ensures Increasing(BeforeAcquire(h, c).0)
    ensures BeforeAcquire(h, c).1 == OK <==> c > 0 && |h.classes| < MAX_HELD && forall x | x in h.classes :: x < c
    ensures BeforeAcquire(h, c).1 != OK ==> BeforeAcquire(h, c).0.classes == h.classes
  {
    if h.classes != [] {
      assert h.classes[|h.classes| - 1] in h.classes;
    }
  }

  /** Releasing the class on top undoes its acquisition; anything else leaves the stack alone. */
  lemma ReleaseUndoes(h: Held, c: nat)
    requires Increasing(h)
    ensures Increasing(AfterRelease(h, c).0)
    ensures BeforeAcquire(h, c).1 == OK ==> AfterRelease(BeforeAcquire(h, c).0, c) == (h, OK)
    ensures AfterRelease(h, c).1 != OK ==> AfterRelease(h, c).0.classes == h.classes
  {
    assert (h.classes + [c])[..|h.classes|] == h.classes;
  }

  /** Every refusal for a class other than 0 is counted, once, and changes nothing else; success is not counted. */
  lemma ViolationsCounted(h: Held, c: nat)
    ensures var (h', rc) := BeforeAcquire(h, c);
      h'.violations == h.violations + if c != 0 && rc != OK then 1 else 0
    ensures var (h', rc) := AfterRelease(h, c);
      h'.violations == h.violations + if c != 0 && rc != OK then 1 else 0
  {
  }

  /** Why an acquisition is refused: no class, no room, or a class that is not above the ones held, in this order. */
  lemma RefusalSays(h: Held, c: nat)
    requires Increasing(h)
    ensures var rc := BeforeAcquire(h, c).1;
      && (rc == E_INVAL <==> c == 0)
      && (rc == E_OVERFLOW <==> c != 0 && |h.classes| == MAX_HELD)
      && (rc == E_DEADLK <==> c != 0 && |h.classes| < MAX_HELD && exists x :: x in h.classes && c <= x)
  {
    AcceptsExactly(h, c);
    if h.classes != [] {
      assert h.classes[|h.classes| - 1] in h.classes;
    }
  }

  /** A release succeeds exactly for the class acquired last; refused, it says whether anything is held. */
  lemma ReleaseSays(h: Held, c: nat)
    requires Increasing(h)
    ensures var (h', rc) := AfterRelease(h, c);
      && (rc == OK <==> c in h.classes && forall x | x in h.classes :: x <= c)
      && (rc == OK ==> h.classes == h'.classes + [c])
      && (rc == E_INVAL <==> c == 0) && (rc == E_PERM <==> c != 0 && h.classes == [])
  {
    if h.classes != [] {
      var top := h.classes[|h.classes| - 1];
      assert top in h.classes;
      assert forall x | x in h.classes :: x <= top;
    }
  }

  class Validator {
    var heldClass: array<nat>
    var depth: nat
    var violationCount: nat

    ghost predicate Valid()
      reads this
    {
      heldClass.Length == MAX_HELD && depth <= MAX_HELD
    }

    ghost function Contents(): Held
      requires Valid()
      reads this, heldClass
    {
      Held(heldClass[..depth], violationCount)
    }

    constructor ()
      ensures Valid() && fresh(heldClass) && Contents() == Held([], 0)
    {
      heldClass := new nat[MAX_HELD](_ => 0);
      depth, violationCount := 0, 0;
    }

    method IsHeld(c: nat) returns (r: bool)
      requires Valid()
      ensures r <==> c != 0 && c in Contents().classes
    {
      if c == 0 {
        return false;
      }
      for i := 0 to depth
        invariant c !in heldClass[..i]
      {
        if heldClass[i] == c {
          return true;
        }
      }
      return false;
    }

    method Acquire(c: nat) returns (rc: int)
      requires Valid()
      modifies this`depth, this`violationCount, heldClass
      ensures Valid() && (Contents(), rc) == BeforeAcquire(old(Contents()), c)
    {
      if c == 0 {
        return E_INVAL;
      }
      if depth >= MAX_HELD {
        violationCount := violationCount + 1;
        return E_OVERFLOW;
      }
      for i := 0 to depth
        invariant c !in heldClass[..i] && unchanged(this) && unchanged(heldClass)
      {
        if heldClass[i] == c {
          violationCount := violationCount + 1;
          return E_DEADLK;
        }
      }
      if depth > 0 {
        var top := heldClass[depth - 1];
        if c < top {
          violationCount := violationCount + 1;
          return E_DEADLK;
        }
      }
      heldClass[depth] := c;
      depth := depth + 1;
      assert heldClass[..depth] == old(heldClass[..depth]) + [c];
      return OK;
    }

    method Release(c: nat) returns (rc: int)
      requires Valid()
      modifies this`depth, this`violationCount, heldClass
      ensures Valid() && (Contents(), rc) == AfterRelease(old(Contents()), c)
    {
      if c == 0 {
        return E_INVAL;
      }
      if depth == 0 {
        violationCount := violationCount + 1;
        return E_PERM;
      }
      var index := depth - 1;
      if heldClass[index] != c {
        violationCount := violationCount + 1;
        return E_DEADLK;
      }
      heldClass[index] := 0;
      depth := depth - 1;
      assert heldClass[..depth] == old(heldClass[..depth])[..depth];
      return OK;
    }
  }
}
