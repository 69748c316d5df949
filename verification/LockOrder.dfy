/**
  Threads that ask the lock-order validator before every spinlock acquire.  Each
  lock has a class of its own, so locks are named by their classes.  Every access
  to a lock word and every call of the validator is one step.
 */
module LockOrder {
  import opened Lockdep

  /**
    What a thread is doing: nothing with locks, spinning on a lock the validator
    accepted, or past the store that opened a lock and about to report it.
   */
  datatype Activity = Working | Spinning(c: nat) | Opened(c: nat)

  datatype Thread = Thread(held: Held, activity: Activity)

  /** `holder` gives, for each closed lock, the thread whose exchange closed it. */
  datatype System = System(threads: map<nat, Thread>, holder: map<nat, nat>)

  datatype Event =
    | Ask(id: nat, c: nat)
    | Exchange(id: nat)
    | Open(id: nat, c: nat)
    | Report(id: nat)

  predicate Enabled(s: System, e: Event)
  {
    e.id in s.threads &&
    var t := s.threads[e.id];
    match e
    case Ask(_, _) => t.activity.Working?
    case Exchange(_) => t.activity.Spinning?
    case Open(id, c) => t.activity.Working? && c in s.holder && s.holder[c] == id
    case Report(_) => t.activity.Opened?
  }

  function Step(s: System, e: Event): System
    requires Enabled(s, e)
  {
    var t := s.threads[e.id];
    match e
    case Ask(id, c) =>
      var (h, rc) := BeforeAcquire(t.held, c);
      s.(threads := s.threads[id := Thread(h, if rc == OK then Spinning(c) else Working)])
    case Exchange(id) =>
      if t.activity.c in s.holder then s
      else System(s.threads[id := t.(activity := Working)], s.holder[t.activity.c := id])
    case Open(id, c) => System(s.threads[id := t.(activity := Opened(c))], s.holder - {c})
    case Report(id) =>
      s.(threads := s.threads[id := Thread(AfterRelease(t.held, t.activity.c).0, Working)])
  }

  /** Held classes increase; locks a thread holds are on its stack; the lock it spins on is on top and not its own. */
  ghost predicate ThreadOk(s: System, id: nat)
    requires id in s.threads
  {
    var t := s.threads[id];
    && Increasing(t.held)
    && (forall c | c in s.holder && s.holder[c] == id :: c in t.held.classes)
    && (t.activity.Spinning? ==>
          && t.held.classes != [] && t.held.classes[|t.held.classes| - 1] == t.activity.c
          && !(t.activity.c in s.holder && s.holder[t.activity.c] == id))
    && (t.activity.Opened? ==> !(t.activity.c in s.holder && s.holder[t.activity.c] == id))
  }

  ghost predicate Inv(s: System)
  {
    && (forall id | id in s.threads :: ThreadOk(s, id))
    && (forall c | c in s.holder :: s.holder[c] in s.threads)
  }

  /** What one step does to the locks: only an exchange closes one, for the thread that spins on it and only if it is open. */
  lemma LocksChange(s: System, e: Event)
    requires Enabled(s, e)
    ensures var s' := Step(s, e);
      match e
      case Exchange(id) =>
        var c := s.threads[id].activity.c;
        && c in s'.holder && s'.holder == s.holder[c := if c in s.holder then s.holder[c] else id]
        && (s'.threads[id].activity == Working <==> c !in s.holder)
      case Open(id, c) => s'.holder == s.holder - {c} && s'.threads[id].activity == Opened(c)
      case _ => s'.holder == s.holder
    ensures forall u | u in s.threads && u != e.id :: u in Step(s, e).threads && Step(s, e).threads[u] == s.threads[u]
  {
  }

  /** A thread spins exactly on a class the validator has accepted, and reports exactly what it has opened. */
  lemma StacksChange(s: System, e: Event)
    requires Inv(s) && Enabled(s, e)
    ensures var t, t' := s.threads[e.id], Step(s, e).threads[e.id];
      match e
      case Ask(_, c) =>
        if c > 0 && |t.held.classes| < MAX_HELD && (forall x | x in t.held.classes :: x < c)
        then t'.activity == Spinning(c) && t'.held.classes == t.held.classes + [c]
        else t'.activity == Working && t'.held.classes == t.held.classes
      case Report(_) => t'.activity == Working && (t.held.classes != [] && t.held.classes[|t.held.classes| - 1] == t.activity.c ==>
            t.held.classes == t'.held.classes + [t.activity.c])
      case _ => t'.held == t.held
  {
    assert ThreadOk(s, e.id);
    if e.Ask? {
      AcceptsExactly(s.threads[e.id].held, e.c);
    }
  }

  function Initial(ids: set<nat>): System
  {
    System(map i | i in ids :: Thread(Held([], 0), Working), map[])
  }

  lemma AskKeeps(s: System, id: nat, c: nat)
    requires Inv(s) && Enabled(s, Ask(id, c))
    ensures ThreadOk(Step(s, Ask(id, c)), id)
  {
    assert ThreadOk(s, id);
    AcceptsExactly(s.threads[id].held, c);
  }

  lemma ReportKeeps(s: System, id: nat)
    requires Inv(s) && Enabled(s, Report(id))
    ensures ThreadOk(Step(s, Report(id)), id)
  {
    assert ThreadOk(s, id);
    var t := s.threads[id];
    ReleaseUndoes(t.held, t.activity.c);
    var s' := Step(s, Report(id));
    forall c | c in s'.holder && s'.holder[c] == id
      ensures c in s'.threads[id].held.classes
    {
      var k :| 0 <= k < |t.held.classes| && t.held.classes[k] == c;
    }
  }

  lemma StepKeeps(s: System, e: Event)
    requires Inv(s) && Enabled(s, e)
    ensures Inv(Step(s, e))
  {
    var s' := Step(s, e);
    var t := s.threads[e.id];
    assert ThreadOk(s, e.id);
    match e {
      case Ask(id, c) => AskKeeps(s, id, c);
      case Exchange(id) =>
      case Open(id, c) =>
      case Report(id) => ReportKeeps(s, id);
    }
    forall id | id in s'.threads && id != e.id
      ensures ThreadOk(s', id)
    {
      assert ThreadOk(s, id) && s'.threads[id] == s.threads[id];
    }
  }

  // ---- runs ----

  ghost predicate IsRun(s: System, events: seq<Event>)
    decreases |events|
  {
    events != [] ==> Enabled(s, events[0]) && IsRun(Step(s, events[0]), events[1..])
  }

  ghost function Run(s: System, events: seq<Event>): System
    requires IsRun(s, events)
    decreases |events|
  {
    if events == [] then s else Run(Step(s, events[0]), events[1..])
  }

  lemma {:induction false} RunKeeps(s: System, events: seq<Event>)
    requires Inv(s) && IsRun(s, events)
    ensures Inv(Run(s, events))
    decreases |events|
  {
    hide Inv, Step, Enabled;
    if events != [] {
      StepKeeps(s, events[0]);
      RunKeeps(Step(s, events[0]), events[1..]);
    }
  }

  // ---- waiting ----

  /** Thread `i` spins on a lock that thread `j` holds. */
  ghost predicate WaitsFor(s: System, i: nat, j: nat)
  {
    i in s.threads && s.threads[i].activity.Spinning? && s.threads[i].activity.c in s.holder &&
    s.holder[s.threads[i].activity.c] == j
  }

  /** A path of waiting threads, the last of which waits too. */
  ghost predicate WaitPath(s: System, p: seq<nat>)
  {
    p != [] && (forall i | 0 <= i < |p| - 1 :: WaitsFor(s, p[i], p[i + 1]))
    && p[|p| - 1] in s.threads && s.threads[p[|p| - 1]].activity.Spinning?
  }

  lemma WaitingClimbs(s: System, i: nat, j: nat)
    requires Inv(s) && WaitsFor(s, i, j) && j in s.threads && s.threads[j].activity.Spinning?
    ensures s.threads[i].activity.c < s.threads[j].activity.c
  {
    assert ThreadOk(s, i) && ThreadOk(s, j);
    var c, h := s.threads[i].activity.c, s.threads[j].held.classes;
    var k :| 0 <= k < |h| && h[k] == c;
    assert k != |h| - 1;
  }

  lemma {:induction false} PathClimbs(s: System, p: seq<nat>)
    requires Inv(s) && WaitPath(s, p)
    ensures p[0] in s.threads && s.threads[p[0]].activity.Spinning?
    ensures s.threads[p[0]].activity.c <= s.threads[p[|p| - 1]].activity.c
    ensures |p| > 1 ==> s.threads[p[0]].activity.c < s.threads[p[|p| - 1]].activity.c
    decreases |p|
  {
    hide Inv;
    if |p| > 1 {
      var rest := p[1..];
      forall i | 0 <= i < |rest| - 1
        ensures WaitsFor(s, rest[i], rest[i + 1])
      {
        var k := i + 1;
        assert WaitsFor(s, p[k], p[k + 1]);
      }
      assert WaitPath(s, rest);
      PathClimbs(s, rest);
      assert WaitsFor(s, p[0], p[0 + 1]);
      WaitingClimbs(s, p[0], p[1]);
    }
  }

  /** In no reachable state do threads wait for each other in a circle, whatever its length. */
  lemma NoWaitCycle(ids: set<nat>, events: seq<Event>, p: seq<nat>)
    requires IsRun(Initial(ids), events)
    requires WaitPath(Run(Initial(ids), events), p)
    ensures !WaitsFor(Run(Initial(ids), events), p[|p| - 1], p[0])
  {
    var s := Run(Initial(ids), events);
    assert Inv(Initial(ids));
    RunKeeps(Initial(ids), events);
    PathClimbs(s, p);
    if WaitsFor(s, p[|p| - 1], p[0]) {
      WaitingClimbs(s, p[|p| - 1], p[0]);
    }
  }

  ghost predicate Waiting(s: System, i: nat)
  {
    i in s.threads && s.threads[i].activity.Spinning?
  }

  ghost function Wanted(s: System, i: nat): nat
  {
    if Waiting(s, i) then s.threads[i].activity.c else 0
  }

  /** Among waiting threads one waits for the highest class. */
  lemma {:induction false} HighestWaits(s: System, ids: set<nat>) returns (top: nat)
    requires ids != {}
    ensures top in ids && forall i | i in ids :: Wanted(s, i) <= Wanted(s, top)
  {
    var first :| first in ids;
    var rest := ids - {first};
    top := first;
    if rest != {} {
      var best := HighestWaits(s, rest);
      if Wanted(s, best) > Wanted(s, first) {
        top := best;
      }
    }
    assert forall i | i in ids :: i == first || i in rest;
  }

  /** If anyone waits, then some waiting thread finds its lock open or held by a thread that does not wait. */
  lemma SomeoneCanMove(s: System)
    requires Inv(s) && exists i :: Waiting(s, i)
    ensures exists i :: Waiting(s, i) && forall j :: WaitsFor(s, i, j) ==> !Waiting(s, j)
  {
    var ids := set i | i in s.threads && s.threads[i].activity.Spinning?;
    assert forall i: nat :: Waiting(s, i) <==> i in ids;
    var top := HighestWaits(s, ids);
    forall j | WaitsFor(s, top, j)
      ensures !Waiting(s, j)
    {
      if Waiting(s, j) {
        WaitingClimbs(s, top, j);
      }
    }
  }
}
