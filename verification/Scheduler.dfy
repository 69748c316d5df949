/**
  The scheduler as the program keeps it: thread objects chained through their
  `next` fields, a head, a tail and counters, all updated in place.  The ghost
  field `model` is the value the operations of the model work on, and `Shape`
  ties it to the objects.
 */
module Scheduler {
  import opened Bytes
  import SM = SchedModel
  import opened SchedModel

  const MAGIC: nat := 0x4d43534f53544852
  const E_STACK: int := -3
  const MIN_STACK: nat := 4096
  const STACK_ALIGN: nat := 16

  class Thread {
    var magic: nat
    var state: ThreadState
    var next: Thread?
    var rsp: nat
    var switches: nat
    var ticks: nat

    constructor ()
    {
      magic, state, next, rsp, switches, ticks := 0, New, null, 0, 0, 0;
    }
  }

  predicate ValidThread(t: Thread?)
    reads t
  {
    t != null && t.magic == MAGIC
  }

  function At(q: seq<Thread>, i: int): Thread?
  {
    if 0 <= i < |q| then q[i] else null
  }

  ghost predicate ChainedAt(q: seq<Thread>, i: nat)
    requires i < |q|
    reads (set t | t in q)`next
  {
    q[i].next == At(q, i + 1)
  }

  ghost predicate Chained(q: seq<Thread>)
    reads (set t | t in q)`next
  {
    forall i: nat | i < |q| :: ChainedAt(q, i)
  }

  /** The fields of the thread objects are what the model says. */
  ghost predicate Agrees(threads: seq<Thread>, state: map<Thread, ThreadState>, switches: map<Thread, nat>)
    requires forall t | t in threads :: t in state && t in switches
    reads threads
  {
    forall t | t in threads :: t.magic == MAGIC && t.state == state[t] && t.switches == switches[t]
  }

  lemma QueueKnown(m: Sched<Thread>, t: Thread)
    requires SM.Shaped(m) && t !in m.threads
    ensures t !in m.queue
  {
  }

  lemma StackTop(low: nat, size: nat)
    requires 0 < low < U64 && MIN_STACK <= size < U64
    ensures var high := (low + size) % U64;
      && (high <= low <==> low + size >= U64)
      && (high > low ==> high == low + size)
      && high - 16 < high / STACK_ALIGN * STACK_ALIGN <= high
      && (high / STACK_ALIGN * STACK_ALIGN) % STACK_ALIGN == 0
  {
  }

  class Scheduler {
    var current: Thread?
    var idle: Thread?
    var readyHead: Thread?
    var readyTail: Thread?
    var runnableCount: nat
    var contextSwitches: nat
    var ticks: nat
    ghost var model: Sched<Thread>

    /** The queue is the null-terminated list from the head to the tail. */
    ghost predicate Linked()
      reads this, model.queue
    {
      && readyHead == At(model.queue, 0) && readyTail == At(model.queue, |model.queue| - 1)
      && runnableCount == |model.queue| && NoDuplicates(model.queue) && Chained(model.queue)
    }

    ghost predicate Shape()
      reads this, model.queue, model.threads
    {
      && current == model.current && idle == model.idle && contextSwitches == model.total
      && Linked() && SM.Shaped(model) && Agrees(model.threads, model.state, model.switches)
    }

    ghost predicate Valid()
      reads this, model.queue, model.threads
    {
      Shape() && Inv(model)
    }

    constructor (boot: Thread)
      modifies boot
      ensures Valid() && model == Start(boot) && ticks == 0
    {
      boot.magic, boot.state, boot.next, boot.rsp := MAGIC, Running, null, 0;
      boot.switches, boot.ticks := 0, 0;
      current, idle, readyHead, readyTail := boot, boot, null, null;
      runnableCount, contextSwitches, ticks := 0, 0, 0;
      model := Start(boot);
      StartInv(boot);
    }

    /** A stack of at least 4096 bytes that does not wrap around leaves room for an aligned top. */
    method Prepare(thread: Thread, hasEntry: bool, stackBase: nat, stackSize: nat) returns (rc: int)
      requires Valid() && thread !in model.threads && stackBase < U64 && stackSize < U64
      modifies thread, `model
      ensures Valid()
      ensures rc == if !hasEntry || stackBase == 0 then E_INVAL
                    else if stackSize < MIN_STACK || stackBase + stackSize >= U64 then E_STACK else OK
      ensures rc == OK ==> model == Meet(old(model), thread)
      ensures rc == OK ==> stackBase + 120 < thread.rsp <= stackBase + stackSize - 8 && thread.rsp % STACK_ALIGN == 8
      ensures rc != OK ==> model == old(model) && unchanged(thread)
    {
      hide SM.Shaped, Ordered, Total, Chained, NoDuplicates, Meet;
      if !hasEntry || stackBase == 0 {
        return E_INVAL;
      }
      if stackSize < MIN_STACK {
        return E_STACK;
      }
      var high := (stackBase + stackSize) % U64;
      StackTop(stackBase, stackSize);
      if high <= stackBase {
        return E_STACK;
      }
      var top := high / STACK_ALIGN * STACK_ALIGN;
      if top <= stackBase + 128 {
        return E_STACK;
      }
      Register(thread, top - 8);
      return OK;
    }

    method Register(thread: Thread, rsp: nat)
      requires Valid() && thread !in model.threads
      modifies thread, `model
      ensures Valid() && model == Meet(old(model), thread) && thread.rsp == rsp
    {
      hide Ordered, Total, NoDuplicates, Chained, SM.Shaped;
      QueueKnown(model, thread);
      thread.magic, thread.state, thread.next, thread.rsp := MAGIC, New, null, rsp;
      thread.switches, thread.ticks := 0, 0;
      Admit(thread);
    }

    ghost method Admit(thread: Thread)
      requires Valid() && thread !in model.threads && thread.magic == MAGIC && thread.state == New && thread.switches == 0
      modifies `model
      ensures Valid() && model == Meet(old(model), thread)
    {
      hide Ordered, Total, NoDuplicates, Chained;
      MeetKeeps(model, thread);
      model := Meet(model, thread);
    }

    /** The thread becomes the last of the list. */
    method Append(thread: Thread)
      requires Linked() && thread !in model.queue
      modifies `readyHead, `readyTail, `runnableCount, `model, (set t | t in model.queue)`next, thread`next
      ensures Linked() && model == old(model).(queue := old(model).queue + [thread])
    {
      ghost var q := model.queue;
      thread.next := null;
      if readyTail == null {
        readyHead := thread;
        readyTail := thread;
      } else {
        readyTail.next := thread;
        readyTail := thread;
      }
      runnableCount := runnableCount + 1;
      model := model.(queue := q + [thread]);
      forall i: nat | i < |model.queue|
        ensures ChainedAt(model.queue, i)
      {
        assert i < |q| ==> old(ChainedAt(q, i));
      }
    }

    method SetState(t: Thread, st: ThreadState)
      requires Shape() && t in model.threads
      modifies t`state, `model
      ensures Shape() && model == old(model).(state := old(model).state[t := st])
    {
      hide NoDuplicates, Chained;
      t.state := st;
      model := model.(state := model.state[t := st]);
    }

    method CountSwitch(t: Thread)
      requires Shape() && t in model.threads
      modifies t`switches, `model
      ensures t in old(model).switches
      ensures Shape() && model == old(model).(switches := old(model).switches[t := old(model).switches[t] + 1])
    {
      hide NoDuplicates, Chained;
      t.switches := t.switches + 1;
      model := model.(switches := model.switches[t := model.switches[t] + 1]);
    }

    method Enqueue(thread: Thread?) returns (rc: int)
      requires Shape()
      requires ValidThread(thread) ==> thread in model.threads && thread !in model.queue
      modifies `readyHead, `readyTail, `runnableCount, `model
      modifies (set t | t in model.threads)`next, (set t | t in model.threads)`state
      ensures Shape()
      ensures !old(ValidThread(thread)) ==> rc == E_INVAL && model == old(model)
      ensures old(ValidThread(thread)) ==> thread in old(model).state && (model, rc) == SM.Enqueue(old(model), thread)
    {
      if !ValidThread(thread) {
        return E_INVAL;
      }
      if thread.state != New && thread.state != Ready && thread.state != Blocked {
        return E_STATE;
      }
      SetState(thread, Ready);
      Append(thread);
      return OK;
    }

    /** The head of the list leaves it; the idle thread stands in for an empty list. */
    method PickNext() returns (next: Thread)
      requires Shape()
      modifies `readyHead, `readyTail, `runnableCount, `model, (set t | t in model.queue)`next
      ensures Shape()
      ensures var (n, rest) := SM.PickNext(old(model)); next == n && model == old(model).(queue := rest)
    {
      ghost var q := model.queue;
      if readyHead == null {
        assert model == model.(queue := []);
        return idle;
      }
      next := readyHead;
      Unlink(next);
    }

    method Unlink(first: Thread)
      requires Linked() && first == readyHead
      modifies `readyHead, `readyTail, `runnableCount, `model, first`next
      ensures Linked() && old(model).queue != [] && model == old(model).(queue := old(model).queue[1..])
    {
      ghost var q := model.queue;
      assert ChainedAt(q, 0);
      readyHead := first.next;
      if readyHead == null {
        readyTail := null;
      }
      first.next := null;
      if runnableCount > 0 {
        runnableCount := runnableCount - 1;
      }
      model := model.(queue := q[1..]);
      forall i: nat | i < |model.queue|
        ensures ChainedAt(model.queue, i)
      {
        assert model.queue[i] == q[i + 1] && old(ChainedAt(q, i + 1));
      }
    }

    /** Control passes to `next`. */
    method Become(next: Thread)
      requires Shape() && next in model.threads
      modifies `current, `contextSwitches, `model
      ensures Shape() && model == old(model).(current := next, total := old(model).total + 1)
    {
      hide NoDuplicates, Chained, Agrees;
      current := next;
      contextSwitches := contextSwitches + 1;
      model := model.(current := next, total := model.total + 1);
    }

    method Pass(from: Thread, next: Thread)
      requires Shape() && from == current && from in model.threads && next in model.threads && next != from
      modifies `current, `contextSwitches, `model, next`state, next`switches, from`switches
      ensures Shape() && next in old(model).switches && from in old(model).switches && model == SwitchTo(old(model), next)
    {
      hide NoDuplicates, Chained, Agrees, SM.Shaped, Linked;
      SetState(next, Running);
      Become(next);
      CountSwitch(from);
      CountSwitch(next);
    }

    /** The thread that gives up control goes to the end of the queue. */
    method Requeue(from: Thread) returns (rc: int)
      requires Shape() && from in model.threads && from !in model.queue
      modifies `readyHead, `readyTail, `runnableCount, `model
      modifies (set t | t in model.threads)`next, (set t | t in model.threads)`state
      ensures Shape() && rc == OK
      ensures model == old(model).(queue := old(model).queue + [from], state := old(model).state[from := Ready])
    {
      hide NoDuplicates, Chained, Agrees, SM.Shaped, Linked;
      ghost var m := model;
      SetState(from, Ready);
      KnownThreads();
      rc := Enqueue(from);
      assert m.state[from := Ready][from := Ready] == m.state[from := Ready];
    }

    method Yield() returns (rc: int)
      requires Shape() && model.current !in model.queue
      modifies `current, `readyHead, `readyTail, `runnableCount, `contextSwitches, `model
      modifies (set t | t in model.threads)`next, (set t | t in model.threads)`state, (set t | t in model.threads)`switches
      ensures rc == OK && Shape() && model == SM.Yield(old(model))
      ensures old(Valid()) ==> Valid()
    {
      hide NoDuplicates, Chained, Agrees, Total, Ordered;
      if Inv(model) {
        YieldKeeps(model);
      }
      KnownThreads();
      var from := current;
      var next := PickNext();
      if next == from {
        SetState(from, Running);
        return OK;
      }
      if from.state == Running && from != idle {
        rc := Requeue(from);
        if rc != OK {
          return rc;
        }
      }
      Pass(from, next);
      return OK;
    }

    /** The current thread, the idle thread and the threads of the queue are threads of the scheduler, with their mark. */
    lemma KnownThreads()
      requires Shape()
      ensures current != null && idle != null && model.current in model.threads && model.idle in model.threads
      ensures forall t | t in model.queue :: t in model.threads
      ensures forall t | t in model.threads :: t.magic == MAGIC && t in model.state && t.state == model.state[t]
    {
    }

    method BlockCurrent() returns (rc: int)
      requires Valid()
      modifies `current, `readyHead, `readyTail, `runnableCount, `contextSwitches, `model
      modifies (set t | t in model.threads)`next, (set t | t in model.threads)`state, (set t | t in model.threads)`switches
      ensures Valid() && (model, rc) == SM.Block(old(model))
    {
      hide NoDuplicates, Chained, Agrees, Total, SM.Yield;
      KnownThreads();
      if current == idle {
        return E_STATE;
      }
      BlockKeeps(model);
      SetState(current, Blocked);
      rc := Yield();
    }

    method MarkReady(thread: Thread?) returns (rc: int)
      requires Valid() && (ValidThread(thread) ==> thread in model.threads)
      modifies `readyHead, `readyTail, `runnableCount, `model
      modifies (set t | t in model.threads)`next, (set t | t in model.threads)`state
      ensures Valid()
      ensures !old(ValidThread(thread)) ==> rc == E_INVAL && model == old(model)
      ensures old(ValidThread(thread)) ==> thread in old(model).state && (model, rc) == SM.MarkReady(old(model), thread)
    {
      hide NoDuplicates, Chained, Agrees, Total;
      if !ValidThread(thread) {
        return E_INVAL;
      }
      KnownThreads();
      if thread.state != Blocked {
        return E_STATE;
      }
      EnqueueKeeps(model, thread);
      rc := Enqueue(thread);
    }

    method Tick() returns (rc: int)
      requires Valid()
      modifies `ticks, current`ticks
      ensures Valid() && rc == OK && ticks == old(ticks) + 1 && current != null && current.ticks == old(current.ticks) + 1
    {
      hide NoDuplicates, Chained, Total, Ordered, SM.Shaped;
      ticks := ticks + 1;
      current.ticks := current.ticks + 1;
      return OK;
    }

    method ReadyCount() returns (n: nat)
      requires Linked()
      ensures n == |model.queue| == runnableCount
    {
      n := 0;
      var cursor := readyHead;
      while cursor != null
        invariant n <= |model.queue| && cursor == At(model.queue, n)
        decreases |model.queue| - n
      {
        assert ChainedAt(model.queue, n);
        n := n + 1;
        cursor := cursor.next;
      }
    }

    /** A list the validator accepts. */
    ghost predicate GoodList(q: seq<Thread>)
      reads this, q
    {
      && readyHead == At(q, 0) && readyTail == At(q, |q| - 1) && |q| == runnableCount && Chained(q)
      && forall t | t in q :: t.magic == MAGIC && t.state == Ready && t != current
    }

    /** Terminates on any heap, cyclic lists included, and accepts exactly the good lists. */
    method Validate() returns (rc: int)
      ensures rc == E_INVAL <==> !ValidThread(current)
      ensures ValidThread(current) ==> (rc == OK <==> exists q :: GoodList(q))
      ensures rc == OK || rc == E_INVAL || rc == E_CORRUPT
    {
      if !ValidThread(current) {
        return E_INVAL;
      }
      var count := 0;
      var cursor, last: Thread? := readyHead, null;
      ghost var seen: seq<Thread> := [];
      while cursor != null
        invariant |seen| == count <= runnableCount + 1
        invariant last == At(seen, count - 1)
        invariant cursor == (if count == 0 then readyHead else seen[count - 1].next)
        invariant count > 0 ==> readyHead == seen[0]
        invariant forall i: nat | i + 1 < count :: ChainedAt(seen, i)
        invariant forall t | t in seen :: t.magic == MAGIC && t.state == Ready && t != current
        invariant forall q | GoodList(q) :: seen <= q && cursor == At(q, count)
        decreases runnableCount + 2 - count
      {
        if !ValidThread(cursor) || cursor.state != Ready {
          return E_CORRUPT;
        }
        if cursor == current {
          return E_CORRUPT;
        }
        ghost var before := seen;
        last := cursor;
        seen := seen + [cursor];
        cursor := cursor.next;
        count := count + 1;
        forall i: nat | i + 1 < count
          ensures ChainedAt(seen, i)
        {
          assert i + 2 < count ==> ChainedAt(before, i);
        }
        forall q | GoodList(q)
          ensures seen <= q && cursor == At(q, count)
        {
          assert ChainedAt(q, count - 1);
        }
        if count > runnableCount + 1 {
          return E_CORRUPT;
        }
      }
      forall q | GoodList(q)
        ensures q == seen
      {
        assert |q| == count;
      }
      if last != readyTail {
        return E_CORRUPT;
      }
      if count != runnableCount {
        return E_CORRUPT;
      }
      assert GoodList(seen);
      return OK;
    }
  }
}
