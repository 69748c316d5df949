/**
  The cooperative scheduler on values: a first-in first-out ready queue, the
  state of every thread, and the counts of context switches.
 */
module SchedModel {
  datatype ThreadState = New | Ready | Running | Blocked | Zombie

  const OK: int := 0
  const E_INVAL: int := -1
  const E_STATE: int := -2
  const E_CORRUPT: int := -4

  /** `threads` lists every thread the scheduler has met, in that order. */
  datatype Sched<T> = Sched(threads: seq<T>, current: T, idle: T, queue: seq<T>,
                            state: map<T, ThreadState>, switches: map<T, nat>, total: nat)

  ghost predicate NoDuplicates<T>(s: seq<T>)
  {
    forall i, j | 0 <= i < j < |s| :: s[i] != s[j]
  }

  /** The fields fit together. */
  ghost predicate Shaped<T>(s: Sched<T>)
  {
    && NoDuplicates(s.threads) && s.current in s.threads && s.idle in s.threads
    && (forall t | t in s.threads :: t in s.state && t in s.switches)
    && (forall t | t in s.queue :: t in s.threads)
  }

  /** The queue holds exactly the ready threads, once each; only the current thread and the idle thread are running. */
  ghost predicate Ordered<T>(s: Sched<T>)
    requires Shaped(s)
  {
    && NoDuplicates(s.queue)
    && (forall t | t in s.threads :: t in s.queue <==> s.state[t] == Ready)
    && (forall t | t in s.threads :: t == s.current || t == s.idle <==> s.state[t] == Running)
  }

  function Total<T>(threads: seq<T>, switches: map<T, nat>): nat
    requires forall t | t in threads :: t in switches
  {
    if threads == [] then 0 else switches[threads[0]] + Total(threads[1..], switches)
  }

  ghost predicate Inv<T>(s: Sched<T>)
  {
    Shaped(s) && Ordered(s) && Total(s.threads, s.switches) == 2 * s.total
  }

  // ---- operations ----

  function Start<T>(boot: T): Sched<T>
  {
    Sched([boot], boot, boot, [], map[boot := Running], map[boot := 0], 0)
  }

  function Meet<T>(s: Sched<T>, t: T): Sched<T>
  {
    s.(threads := s.threads + [t], state := s.state[t := New], switches := s.switches[t := 0])
  }

  predicate Queueable(st: ThreadState)
  {
    st.New? || st.Ready? || st.Blocked?
  }

  function Enqueue<T>(s: Sched<T>, t: T): (Sched<T>, int)
    requires t in s.state
  {
    if Queueable(s.state[t]) then (s.(queue := s.queue + [t], state := s.state[t := Ready]), OK)
    else (s, E_STATE)
  }

  function MarkReady<T>(s: Sched<T>, t: T): (Sched<T>, int)
    requires t in s.state
  {
    if s.state[t].Blocked? then Enqueue(s, t) else (s, E_STATE)
  }

  /** The thread that runs next and the queue without it. */
  function PickNext<T>(s: Sched<T>): (T, seq<T>)
  {
    if s.queue == [] then (s.idle, []) else (s.queue[0], s.queue[1..])
  }

  /** Control passes from the current thread, whose state and place in the queue are settled, to `next`. */
  function SwitchTo<T>(s: Sched<T>, next: T): Sched<T>
    requires s.current in s.switches && next in s.switches
  {
    s.(state := s.state[next := Running], current := next, total := s.total + 1,
       switches := s.switches[s.current := s.switches[s.current] + 1][next := s.switches[next] + 1])
  }

  function Yield<T>(s: Sched<T>): Sched<T>
    requires Shaped(s)
  {
    var (next, rest) := PickNext(s);
    var s1 := s.(queue := rest);
    if next == s.current then s1.(state := s.state[s.current := Running])
    else
      var s2 := if s.state[s.current].Running? && s.current != s.idle
        then s1.(queue := rest + [s.current], state := s.state[s.current := Ready]) else s1;
      SwitchTo(s2, next)
  }

  function Block<T>(s: Sched<T>): (Sched<T>, int)
    requires Shaped(s)
  {
    if s.current == s.idle then (s, E_STATE)
    else (Yield(s.(state := s.state[s.current := Blocked])), OK)
  }

  // ---- the invariant ----

  lemma StartInv<T>(boot: T)
    ensures Inv(Start(boot))
  {
    var s := Start(boot);
    assert s.threads[1..] == [];
  }

  lemma {:induction false} TotalSame<T>(threads: seq<T>, a: map<T, nat>, b: map<T, nat>)
    requires forall t | t in threads :: t in a && t in b && a[t] == b[t]
    ensures Total(threads, a) == Total(threads, b)
  {
    if threads != [] {
      TotalSame(threads[1..], a, b);
    }
  }

  lemma {:induction false} TotalAppend<T>(threads: seq<T>, t: T, m: map<T, nat>)
    requires t in m && forall x | x in threads :: x in m
    ensures Total(threads + [t], m) == Total(threads, m) + m[t]
  {
    if threads == [] {
      assert [t][1..] == [];
    } else {
      assert (threads + [t])[1..] == threads[1..] + [t];
      TotalAppend(threads[1..], t, m);
    }
  }

  lemma {:induction false} TotalBump<T>(threads: seq<T>, t: T, m: map<T, nat>)
    requires NoDuplicates(threads) && t in threads && forall x | x in threads :: x in m
    ensures Total(threads, m[t := m[t] + 1]) == Total(threads, m) + 1
  {
    var m' := m[t := m[t] + 1];
    var rest := threads[1..];
    if threads[0] == t {
      assert t !in rest by {
        assert forall i | 0 <= i < |rest| :: rest[i] == threads[i + 1];
      }
      TotalSame(rest, m, m');
    } else {
      assert NoDuplicates(rest) by {
        assert forall i | 0 <= i < |rest| :: rest[i] == threads[i + 1];
      }
      TotalBump(rest, t, m);
    }
  }

  lemma MeetKeeps<T>(s: Sched<T>, t: T)
    requires Inv(s) && t !in s.threads
    ensures Inv(Meet(s, t))
  {
    var s' := Meet(s, t);
    TotalSame(s.threads, s.switches, s'.switches);
    TotalAppend(s.threads, t, s'.switches);
  }

  lemma EnqueueKeeps<T>(s: Sched<T>, t: T)
    requires Inv(s) && t in s.threads && s.state[t] != Ready
    ensures Inv(Enqueue(s, t).0)
    ensures Enqueue(s, t).1 == OK <==> t != s.current && t != s.idle && s.state[t] != Zombie
    ensures Enqueue(s, t).0.queue == s.queue + if Enqueue(s, t).1 == OK then [t] else []
    ensures forall u | u in s.threads && u != t :: Enqueue(s, t).0.state[u] == s.state[u]
  {
  }

  /** Exactly a blocked thread can be woken, and it goes to the end of the queue. */
  lemma WakesExactly<T>(s: Sched<T>, t: T)
    requires Inv(s) && t in s.threads
    ensures Inv(MarkReady(s, t).0)
    ensures MarkReady(s, t).1 == OK <==> s.state[t] == Blocked
    ensures MarkReady(s, t).0.queue == s.queue + if s.state[t] == Blocked then [t] else []
  {
    hide Total;
    if s.state[t] == Blocked {
      EnqueueKeeps(s, t);
    }
  }

  /** Passing control on, from a queue and states already settled. */
  lemma SwitchTotal<T>(s: Sched<T>, next: T)
    requires Shaped(s) && next in s.threads
    ensures Total(s.threads, SwitchTo(s, next).switches) == Total(s.threads, s.switches) + 2 || next == s.current
  {
    if next != s.current {
      TotalBump(s.threads, s.current, s.switches);
      TotalBump(s.threads, next, s.switches[s.current := s.switches[s.current] + 1]);
    }
  }

  /** A yield runs the head of the queue, or the idle thread, and queues the old thread unless it is idle. */
  lemma YieldEffect<T>(s: Sched<T>)
    requires Inv(s)
    ensures s.queue != [] ==> Yield(s).current == s.queue[0]
    ensures s.queue != [] ==> Yield(s).queue == s.queue[1..] + if s.current == s.idle then [] else [s.current]
    ensures s.queue == [] ==> Yield(s).current == s.idle && Yield(s).queue == if s.current == s.idle then [] else [s.current]
    ensures Yield(s).total == if s.queue == [] && s.current == s.idle then s.total else s.total + 1
  {
    hide Total;
    assert s.queue != [] ==> s.queue[0] in s.queue;
  }

  lemma YieldKeeps<T>(s: Sched<T>)
    requires Inv(s)
    ensures Inv(Yield(s))
  {
    hide Total;
    var (next, rest) := PickNext(s);
    if next != s.current {
      var s2 := if s.current != s.idle
        then s.(queue := rest + [s.current], state := s.state[s.current := Ready]) else s.(queue := rest);
      SwitchTotal(s2, next);
    }
  }

  lemma BlockKeeps<T>(s: Sched<T>)
    requires Inv(s)
    ensures Inv(Block(s).0)
    ensures Block(s).1 == OK <==> s.current != s.idle
    ensures s.current == s.idle ==> Block(s).0 == s
    ensures s.current != s.idle ==>
      && Block(s).0.state[s.current] == Blocked && Block(s).0.total == s.total + 1
      && Block(s).0.current == PickNext(s).0 && Block(s).0.queue == PickNext(s).1
  {
    hide Total;
    if s.current != s.idle {
      SwitchTotal(s.(queue := PickNext(s).1, state := s.state[s.current := Blocked]), PickNext(s).0);
    }
  }

  /** The thread that gets control next: the head of the queue, or the idle thread. */
  function Next<T>(s: Sched<T>): T
  {
    if s.queue == [] then s.idle else s.queue[0]
  }

  /**
    Control passes from the current thread, left in the state `left`, to the next one.
    If that is another thread, each of the two is counted one switch, no other thread
    is, and no third thread changes its state.
   */
  ghost predicate PassesOn<T>(s: Sched<T>, s': Sched<T>, left: ThreadState)
    requires Shaped(s)
  {
    && s'.threads == s.threads && s'.idle == s.idle && s'.current == Next(s) && Shaped(s')
    && (forall t | t in s.threads :: s'.switches[t] ==
          s.switches[t] + if Next(s) != s.current && (t == s.current || t == Next(s)) then 1 else 0)
    && (forall t | t in s.threads :: s'.state[t] ==
          if t == Next(s) then Running else if t == s.current then left else s.state[t])
  }

  lemma YieldExactly<T>(s: Sched<T>)
    requires Inv(s)
    ensures PassesOn(s, Yield(s), if s.current == s.idle then Running else Ready)
  {
    hide Total;
    assert s.queue != [] ==> s.queue[0] in s.queue;
  }

  lemma BlockExactly<T>(s: Sched<T>)
    requires Inv(s) && s.current != s.idle
    ensures PassesOn(s, Block(s).0, Blocked)
    ensures Block(s).0.queue == if s.queue == [] then [] else s.queue[1..]
  {
    hide Total;
    assert s.queue != [] ==> s.queue[0] in s.queue;
  }

  /** Meeting, queueing and waking a thread pass no control and count no switch, and concern no other thread. */
  ghost predicate OnlyAbout<T>(s: Sched<T>, s': Sched<T>, t: T)
    requires Shaped(s)
  {
    && s'.current == s.current && s'.idle == s.idle && s'.total == s.total && Shaped(s')
    && (forall u | u in s.threads :: u in s'.threads && s'.switches[u] == s.switches[u])
    && (forall u | u in s.threads && u != t :: s'.state[u] == s.state[u])
    && (forall u | u in s'.threads :: u in s.threads || u == t)
  }

  lemma ConcernsOne<T>(s: Sched<T>, t: T)
    requires Inv(s)
    ensures t !in s.threads ==>
      OnlyAbout(s, Meet(s, t), t) && Meet(s, t).state[t] == New && Meet(s, t).switches[t] == 0 && Meet(s, t).queue == s.queue
    ensures t in s.threads ==>
      OnlyAbout(s, Enqueue(s, t).0, t) && (Enqueue(s, t).1 == OK || (Enqueue(s, t).1 == E_STATE && Enqueue(s, t).0 == s))
    ensures t in s.threads ==>
      OnlyAbout(s, MarkReady(s, t).0, t) && (MarkReady(s, t).1 == OK || (MarkReady(s, t).1 == E_STATE && MarkReady(s, t).0 == s))
  {
    hide Total;
  }

  // ---- runs ----

  datatype Event<T> = DoMeet(t: T) | DoEnqueue(t: T) | DoMarkReady(t: T) | DoYield | DoBlock

  /** Threads are met once, and only threads that have been met and are not ready are enqueued. */
  predicate Allowed<T(==)>(s: Sched<T>, e: Event<T>)
  {
    match e
    case DoMeet(t) => t !in s.threads
    case DoEnqueue(t) => t in s.threads && t in s.state && s.state[t] != Ready
    case DoMarkReady(t) => t in s.threads && t in s.state
    case _ => true
  }

  function Step<T>(s: Sched<T>, e: Event<T>): Sched<T>
    requires Shaped(s) && Allowed(s, e)
  {
    match e
    case DoMeet(t) => Meet(s, t)
    case DoEnqueue(t) => Enqueue(s, t).0
    case DoMarkReady(t) => MarkReady(s, t).0
    case DoYield => Yield(s)
    case DoBlock => Block(s).0
  }

  /** A yield, or a block that is not refused. */
  predicate Passes<T>(s: Sched<T>, e: Event<T>)
  {
    e.DoYield? || (e.DoBlock? && s.current != s.idle)
  }

  lemma StepKeeps<T>(s: Sched<T>, e: Event<T>)
    requires Inv(s) && Allowed(s, e)
    ensures Inv(Step(s, e))
  {
    hide Inv, Yield, Block, Meet, Enqueue, MarkReady;
    match e {
      case DoMeet(t) => MeetKeeps(s, t);
      case DoEnqueue(t) => EnqueueKeeps(s, t);
      case DoMarkReady(t) => WakesExactly(s, t);
      case DoYield => YieldKeeps(s);
      case DoBlock => BlockKeeps(s);
    }
  }

  /** Passing control moves everyone in the queue up by one; nothing else moves anyone. */
  lemma StepQueue<T>(s: Sched<T>, e: Event<T>)
    requires Inv(s) && Allowed(s, e)
    ensures Inv(Step(s, e))
    ensures !Passes(s, e) ==> s.queue <= Step(s, e).queue && Step(s, e).current == s.current
    ensures Passes(s, e) && s.queue != [] ==> s.queue[1..] <= Step(s, e).queue && Step(s, e).current == s.queue[0]
  {
    hide Shaped, Ordered, Total, Yield, Block;
    StepKeeps(s, e);
    match e {
      case DoYield => YieldEffect(s);
      case DoBlock => BlockKeeps(s);
      case _ =>
    }
  }

  ghost predicate RunAllowed<T>(s: Sched<T>, es: seq<Event<T>>)
    decreases |es|
  {
    es != [] ==> Inv(s) && Allowed(s, es[0]) && RunAllowed(Step(s, es[0]), es[1..])
  }

  ghost function Run<T>(s: Sched<T>, es: seq<Event<T>>): Sched<T>
    requires RunAllowed(s, es)
    decreases |es|
  {
    if es == [] then s else Run(Step(s, es[0]), es[1..])
  }

  ghost function Passed<T>(s: Sched<T>, es: seq<Event<T>>): nat
    requires RunAllowed(s, es)
    decreases |es|
  {
    if es == [] then 0 else (if Passes(s, es[0]) then 1 else 0) + Passed(Step(s, es[0]), es[1..])
  }

  lemma {:induction false} RunKeeps<T>(s: Sched<T>, es: seq<Event<T>>)
    requires Inv(s) && RunAllowed(s, es)
    ensures Inv(Run(s, es))
    decreases |es|
  {
    hide Shaped, Ordered, Total, Step, Allowed;
    if es != [] {
      StepKeeps(s, es[0]);
      RunKeeps(Step(s, es[0]), es[1..]);
    }
  }

  lemma QueueExcludesCurrent<T>(s: Sched<T>, p: nat)
    requires Inv(s) && p < |s.queue|
    ensures s.queue[p] != s.current && s.queue[p] != s.idle && s.state[s.queue[p]] == Ready
  {
    assert s.queue[p] in s.queue;
  }

  /** While at most `p` controls have been passed, the thread at position `p` is still queued, that much nearer the head. */
  lemma {:induction false} StillWaiting<T>(s: Sched<T>, es: seq<Event<T>>, p: nat)
    requires Inv(s) && RunAllowed(s, es) && p < |s.queue| && Passed(s, es) <= p
    ensures p - Passed(s, es) < |Run(s, es).queue| && Run(s, es).queue[p - Passed(s, es)] == s.queue[p]
    ensures Run(s, es).current != s.queue[p]
    decreases |es|
  {
    hide Shaped, Ordered, Total, Step, Allowed, Passes;
    if es == [] {
      QueueExcludesCurrent(s, p);
    } else {
      var s1 := Step(s, es[0]);
      StepQueue(s, es[0]);
      if Passes(s, es[0]) {
        assert s1.queue[p - 1] == s.queue[1..][p - 1] == s.queue[p];
        StillWaiting(s1, es[1..], p - 1);
      } else {
        StillWaiting(s1, es[1..], p);
      }
    }
  }

  /** The thread at position `p` becomes current at exactly the `p + 1`-st passing of control, whatever is queued meanwhile. */
  lemma FirstInFirstOut<T>(s: Sched<T>, es: seq<Event<T>>, e: Event<T>, p: nat)
    requires Inv(s) && RunAllowed(s, es) && p < |s.queue| && Passed(s, es) == p
    requires Allowed(Run(s, es), e) && Passes(Run(s, es), e)
    ensures Inv(Run(s, es)) && Step(Run(s, es), e).current == s.queue[p] && Run(s, es).current != s.queue[p]
  {
    hide Shaped, Ordered, Total, Step, Allowed, Passes, RunAllowed, Run, Passed;
    RunKeeps(s, es);
    StillWaiting(s, es, p);
    StepQueue(Run(s, es), e);
  }

  /** One thread is running exactly when that is the idle thread: the idle thread keeps its state when another runs. */
  lemma OneRunsExactly<T>(s: Sched<T>)
    requires Inv(s)
    ensures (forall t, u | t in s.threads && u in s.threads && s.state[t] == Running && s.state[u] == Running :: t == u)
      <==> s.current == s.idle
  {
  }

  /** Two threads are RUNNING once the boot thread, which is the idle thread, has yielded to another. */
  lemma TwoRun<T>(boot: T, t: T)
    requires t != boot
    ensures var es := [DoMeet(t), DoEnqueue(t), DoYield];
      && RunAllowed(Start(boot), es)
      && var s := Run(Start(boot), es); boot in s.state && t in s.state && s.state[boot] == Running && s.state[t] == Running
  {
    var s0: Sched<T> := Start(boot);
    StartInv(boot);
    var s1 := Step(s0, DoMeet(t));
    StepKeeps(s0, DoMeet(t));
    var s2 := Step(s1, DoEnqueue(t));
    StepKeeps(s1, DoEnqueue(t));
    var s3 := Step(s2, DoYield);
    var es := [DoMeet(t), DoEnqueue(t), DoYield];
    assert es[1..] == [DoEnqueue(t), DoYield] && es[1..][1..] == [DoYield] && es[1..][1..][1..] == [];
    assert RunAllowed(s3, []) && Run(s3, []) == s3;
    assert RunAllowed(s2, es[1..][1..]) && Run(s2, es[1..][1..]) == s3;
    assert RunAllowed(s1, es[1..]) && Run(s1, es[1..]) == s3;
  }
}
