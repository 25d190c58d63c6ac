/** threads/thread.c: the calls as methods over linked queues, thread control blocks and
    an interrupt flag. Each is proved to make the step that the transition system makes. */
module ThreadScheduler {
  import opened Options
  import opened Sequences
  import opened ThreadQueue
  import opened Threads
  import opened ThreadInvariants

  const THREAD_ANY: int := -1
  const THREAD_SELF: int := -2
  const THREAD_INVALID: int := -3
  const THREAD_NONE: int := -4
  const THREAD_NOMORE: int := -5

  /** A pointer that may be NULL. */
  function OrNone(t: Thread?): Option<Thread> { if t == null then None else var u: Thread := t; Some(u) }

  /** The state before thread_init. */
  function Blank(): State { State([], map[], map[], map[], map[], [], false) }

  /** All queues are well formed, have their linkers among `nodes` and share none. */
  ghost predicate Apart(all: set<Queue<Thread>>, nodes: set<Linker<Thread>>)
    reads all, nodes
  {
    && (forall a | a in all :: a.Frame() <= nodes && a.Valid())
    && (forall a, b | a in all && b in all && a != b :: a.Frame() !! b.Frame())
  }

  /** Every wait queue has a queue of its own. */
  ghost predicate OwnQueues(queues: set<WaitQueue>, ready: Queue<Thread>, exited: Queue<Thread>,
                            all: set<Queue<Thread>>) {
    && ready != exited && ready in all && exited in all
    && (forall q | q in queues :: q.queue in all && q.queue != ready && q.queue != exited)
    && (forall q, r | q in queues && r in queues && q.queue == r.queue :: q == r)
  }

  /** The queues hold what the state says. */
  ghost predicate QueuesAgree(inReady: seq<Thread>, waiting: map<WaitQueue, seq<Thread>>,
                              ready: Queue<Thread>, exited: Queue<Thread>,
                              all: set<Queue<Thread>>, nodes: set<Linker<Thread>>)
    reads all, nodes
  {
    && OwnQueues(waiting.Keys, ready, exited, all) && Apart(all, nodes)
    && ready.Contents() == inReady
    && (forall q | q in waiting :: q.queue.Contents() == waiting[q])
  }

  /** So do the thread control blocks. */
  ghost predicate ThreadsAgree(tcb: map<Thread, Tcb>)
    reads tcb.Keys
  {
    forall t | t in tcb :: t.status == tcb[t].status && t.context == tcb[t].context
  }

  /** The index. */
  ghost predicate IndexAgrees(ids: map<nat, Thread>, index: array<Thread?>)
    reads index
  {
    && index.Length == THREAD_MAX_THREADS
    && (forall i: nat :: i in ids ==> i < index.Length && index[i] == ids[i])
    && (forall i :: 0 <= i < index.Length && index[i] != null ==> i in ids)
  }

  /** And the locks. */
  ghost predicate LocksAgree(locks: map<Lock, Option<Thread>>, queues: set<WaitQueue>)
    reads locks.Keys
  {
    forall l | l in locks :: l.queue in queues && LockAgrees(l, locks[l])
  }

  ghost predicate LockAgrees(l: Lock, holder: Option<Thread>)
    reads l
  {
    && (l.locked <==> holder.Some?)
    && l.lockedThread == match holder case Some(t) => t case None => null
  }

  lemma OwnQueue(queues: set<WaitQueue>, ready: Queue<Thread>, exited: Queue<Thread>, all: set<Queue<Thread>>,
                 q: WaitQueue)
    requires OwnQueues(queues, ready, exited, all) && q in queues
    ensures && q.queue in all && ready in all && q.queue != ready
            && forall r | r in queues && r != q :: r.queue in all && r.queue != q.queue
  {}

  // ---- queues ----

  /** Queue_push on one of the queues. */
  method PushOn(a: Queue<Thread>, t: Thread, ghost all: set<Queue<Thread>>, ghost nodes: set<Linker<Thread>>)
    returns (ghost more: set<Linker<Thread>>)
    requires Apart(all, nodes) && a in all
    modifies a, a.Frame()
    ensures nodes <= more && fresh(more - nodes) && Apart(all, more)
    ensures a.Contents() == old(a.Contents()) + [t]
    ensures forall b | b in all && b != a :: b.Contents() == old(b.Contents())
  {
    hide Queue.Valid, Queue.Contents;
    a.Push(t);
    more := nodes + a.Frame();
  }

  /** Queue_pop on one of the queues. */
  method PopFrom(a: Queue<Thread>, ghost all: set<Queue<Thread>>, ghost nodes: set<Linker<Thread>>)
    requires Apart(all, nodes) && a in all && 0 < |a.Contents()|
    modifies a
    ensures Apart(all, nodes) && a.Contents() == old(a.Contents())[1..]
    ensures forall b | b in all && b != a :: b.Contents() == old(b.Contents())
  {
    assert 0 < a.size;
    hide Queue.Valid, Queue.Contents;
    a.Pop();
  }

  /** Queue_movetop on one of the queues. */
  method MoveTopOf(a: Queue<Thread>, pos: nat, ghost all: set<Queue<Thread>>, ghost nodes: set<Linker<Thread>>)
    requires Apart(all, nodes) && a in all && pos < |a.Contents()|
    modifies a, a.Frame()
    ensures Apart(all, nodes) && a.Contents() == MovedToTop(old(a.Contents()), pos)
    ensures forall b | b in all && b != a :: b.Contents() == old(b.Contents())
  {
    assert pos < a.size;
    hide Queue.Valid, Queue.Contents, MovedToTop;
    var moved := a.MoveTop(pos);
  }

  /** Queue_push on a wait queue, as all queues together see it. */
  method PushWaitOn(q: WaitQueue, t: Thread, ghost inReady: seq<Thread>, ghost waiting: map<WaitQueue, seq<Thread>>,
                    ghost ready: Queue<Thread>, ghost exited: Queue<Thread>,
                    ghost all: set<Queue<Thread>>, ghost nodes: set<Linker<Thread>>)
    returns (ghost more: set<Linker<Thread>>)
    requires QueuesAgree(inReady, waiting, ready, exited, all, nodes) && q in waiting
    modifies all, nodes
    ensures nodes <= more && fresh(more - nodes)
    ensures QueuesAgree(inReady, waiting[q := waiting[q] + [t]], ready, exited, all, more)
  {
    assert q.queue in all && q.queue.Frame() <= nodes;
    hide Apart, Queue.Valid, Queue.Contents;
    OwnQueue(waiting.Keys, ready, exited, all, q);
    assert waiting.Keys == waiting[q := waiting[q] + [t]].Keys;
    hide OwnQueues;
    more := PushOn(q.queue, t, all, nodes);
  }

  method PushReadyOn(t: Thread, ghost inReady: seq<Thread>, ghost waiting: map<WaitQueue, seq<Thread>>,
                ready: Queue<Thread>, ghost exited: Queue<Thread>,
                ghost all: set<Queue<Thread>>, ghost nodes: set<Linker<Thread>>)
    returns (ghost more: set<Linker<Thread>>)
    requires QueuesAgree(inReady, waiting, ready, exited, all, nodes)
    modifies all, nodes
    ensures nodes <= more && fresh(more - nodes) && QueuesAgree(inReady + [t], waiting, ready, exited, all, more)
  {
    assert ready in all && ready.Frame() <= nodes;
    hide Apart, Queue.Valid, Queue.Contents, Queue.Frame;
    more := PushOn(ready, t, all, nodes);
  }

  method PushExitedOn(t: Thread, ghost inReady: seq<Thread>, ghost waiting: map<WaitQueue, seq<Thread>>,
                ghost ready: Queue<Thread>, exited: Queue<Thread>,
                ghost all: set<Queue<Thread>>, ghost nodes: set<Linker<Thread>>)
    returns (ghost more: set<Linker<Thread>>)
    requires QueuesAgree(inReady, waiting, ready, exited, all, nodes)
    modifies all, nodes
    ensures nodes <= more && fresh(more - nodes) && QueuesAgree(inReady, waiting, ready, exited, all, more)
  {
    assert exited in all && exited.Frame() <= nodes;
    hide Apart, Queue.Valid, Queue.Contents, Queue.Frame;
    more := PushOn(exited, t, all, nodes);
  }

  method MoveTopOn(pos: nat, ghost inReady: seq<Thread>, ghost waiting: map<WaitQueue, seq<Thread>>,
                ready: Queue<Thread>, ghost exited: Queue<Thread>,
                ghost all: set<Queue<Thread>>, ghost nodes: set<Linker<Thread>>)
    requires QueuesAgree(inReady, waiting, ready, exited, all, nodes) && pos < |inReady|
    modifies all, nodes
    ensures QueuesAgree(MovedToTop(inReady, pos), waiting, ready, exited, all, nodes)
  {
    assert ready in all && ready.Frame() <= nodes;
    hide Apart, Queue.Valid, Queue.Contents, Queue.Frame, MovedToTop;
    MoveTopOf(ready, pos, all, nodes);
  }

  method UnlinkOn(prior: Linker<Thread>, current: Linker<Thread>, pos: nat, ghost inReady: seq<Thread>,
                  ghost waiting: map<WaitQueue, seq<Thread>>,
                  ready: Queue<Thread>, ghost exited: Queue<Thread>,
                  ghost all: set<Queue<Thread>>, ghost nodes: set<Linker<Thread>>)
    requires QueuesAgree(inReady, waiting, ready, exited, all, nodes) && 0 < pos < |inReady| == |ready.linkers|
    requires prior == ready.linkers[pos - 1] && current == ready.linkers[pos]
    modifies all, nodes
    ensures QueuesAgree(Without(inReady, pos), waiting, ready, exited, all, nodes)
  {
    assert ready in all && ready.Frame() <= nodes;
    UnlinkOf(ready, prior, current, pos, all, nodes);
    hide Apart, Queue.Valid, Queue.Contents, Queue.Frame, Without;
  }

  method UnlinkOf(a: Queue<Thread>, prior: Linker<Thread>, current: Linker<Thread>, pos: nat,
                  ghost all: set<Queue<Thread>>, ghost nodes: set<Linker<Thread>>)
    requires Apart(all, nodes) && a in all && 0 < pos < |a.linkers|
    requires prior == a.linkers[pos - 1] && current == a.linkers[pos]
    modifies a, a.Frame()
    ensures Apart(all, nodes) && a.Contents() == Without(old(a.Contents()), pos)
    ensures forall b | b in all && b != a :: b.Contents() == old(b.Contents())
  {
    assert pos < a.size;
    hide Queue.Valid, Queue.Contents, Without;
    a.Unlink(prior, current, pos);
  }

  method NewQueues() returns (ready: Queue<Thread>, exited: Queue<Thread>)
    ensures fresh(ready) && fresh(exited)
    ensures QueuesAgree([], map[], ready, exited, {ready, exited}, {})
  {
    hide Queue.Valid, Queue.Contents;
    ready := new Queue<Thread>();
    exited := new Queue<Thread>();
    assert ready.Frame() == {} && exited.Frame() == {};
  }

  method EmptyIndex() returns (table: array<Thread?>)
    ensures fresh(table) && IndexAgrees(map[], table)
  {
    table := new Thread?[THREAD_MAX_THREADS](_ => null);
  }

  class Scheduler {
    /** thread_ReadyQueue, thread_ExitQueue, thread_ReadyQueue_index */
    const ready: Queue<Thread>
    const exited: Queue<Thread>
    const index: array<Thread?>
    /** the signal mask of the running thread */
    var interrupts: bool

    /** the state of the transition system that the fields stand for */
    ghost var state: State
    /** all queues and their linkers */
    ghost var all: set<Queue<Thread>>
    ghost var nodes: set<Linker<Thread>>

    ghost predicate Valid()
      reads this, all, nodes, index, state.tcb.Keys, state.locks.Keys
    {
      && QueuesAgree(state.ready, state.waiting, ready, exited, all, nodes)
      && ThreadsAgree(state.tcb) && IndexAgrees(state.index, index) && LocksAgree(state.locks, state.waiting.Keys)
    }

    /** The globals before thread_init. */
    constructor ()
      ensures Valid() && interrupts && state == Blank()
      ensures fresh(all) && fresh(nodes) && fresh(index)
    {
      hide QueuesAgree, IndexAgrees;
      var readyQueue, exitQueue := NewQueues();
      var table := EmptyIndex();
      ready := readyQueue;
      exited := exitQueue;
      index := table;
      interrupts := true;
      all := {readyQueue, exitQueue};
      nodes := {};
      state := Blank();
    }

    /** Queue_push(thread_ReadyQueue, t) */
    method PushReady(t: Thread)
      requires Valid()
      modifies this`nodes, this`state, all, nodes
      ensures Valid() && state == old(state).(ready := old(state).ready + [t])
      ensures forall n :: n in nodes ==> n in old(nodes) || fresh(n)
    {
      hide QueuesAgree, ThreadsAgree, LocksAgree, IndexAgrees;
      nodes := PushReadyOn(t, state.ready, state.waiting, ready, exited, all, nodes);
      state := state.(ready := state.ready + [t]);
    }

    /** Queue_pop(thread_ReadyQueue) */
    method PopReady()
      requires Valid() && state.ready != []
      modifies this`state, all, nodes
      ensures Valid() && state == old(state).(ready := old(state).ready[1..])
    {
      hide Apart, Queue.Valid, Queue.Contents, ThreadsAgree, LocksAgree, IndexAgrees;
      PopFrom(ready, all, nodes);
      state := state.(ready := state.ready[1..]);
    }

    /** Queue_push(q->_wait_queue, t) */
    method PushWait(q: WaitQueue, t: Thread)
      requires Valid() && q in state.waiting
      modifies this`nodes, this`state, all, nodes
      ensures Valid() && state == old(state).(waiting := old(state).waiting[q := old(state).waiting[q] + [t]])
      ensures forall n :: n in nodes ==> n in old(nodes) || fresh(n)
    {
      hide QueuesAgree, ThreadsAgree, LocksAgree, IndexAgrees;
      assert state.waiting.Keys == state.waiting[q := state.waiting[q] + [t]].Keys;
      nodes := PushWaitOn(q, t, state.ready, state.waiting, ready, exited, all, nodes);
      state := state.(waiting := state.waiting[q := state.waiting[q] + [t]]);
    }

    /** Queue_pop(q->_wait_queue) */
    method PopWait(q: WaitQueue)
      requires Valid() && q in state.waiting && state.waiting[q] != []
      modifies this`state, all, nodes
      ensures Valid() && state == old(state).(waiting := old(state).waiting[q := old(state).waiting[q][1..]])
    {
      hide Apart, Queue.Valid, Queue.Contents, ThreadsAgree, LocksAgree, IndexAgrees;
      assert state.waiting.Keys == state.waiting[q := state.waiting[q][1..]].Keys;
      OwnQueue(state.waiting.Keys, ready, exited, all, q);
      hide OwnQueues;
      PopFrom(q.queue, all, nodes);
      state := state.(waiting := state.waiting[q := state.waiting[q][1..]]);
    }

    /** Queue_push(thread_ExitQueue, t) */
    method PushExited(t: Thread)
      requires Valid()
      modifies this`nodes, all, nodes
      ensures Valid()
      ensures forall n :: n in nodes ==> n in old(nodes) || fresh(n)
    {
      hide QueuesAgree, ThreadsAgree, LocksAgree, IndexAgrees;
      nodes := PushExitedOn(t, state.ready, state.waiting, ready, exited, all, nodes);
    }

    /** Queue_movetop(thread_ReadyQueue, pos) for a position in the queue. */
    method MoveTopReady(pos: nat)
      requires Valid() && pos < |state.ready|
      modifies this`state, all, nodes
      ensures Valid() && state == old(state).(ready := MovedToTop(old(state).ready, pos))
    {
      hide QueuesAgree, ThreadsAgree, LocksAgree, IndexAgrees, MovedToTop;
      MoveTopOn(pos, state.ready, state.waiting, ready, exited, all, nodes);
      state := state.(ready := MovedToTop(state.ready, pos));
    }

    /** thread_exit takes a thread other than the head out of the ready queue. */
    method UnlinkReady(prior: Linker<Thread>, current: Linker<Thread>, pos: nat)
      requires Valid() && 0 < pos < |state.ready| == |ready.linkers|
      requires prior == ready.linkers[pos - 1] && current == ready.linkers[pos]
      modifies this`state, all, nodes
      ensures Valid() && state == old(state).(ready := Without(old(state).ready, pos))
    {
      hide QueuesAgree, ThreadsAgree, LocksAgree, IndexAgrees, Without;
      UnlinkOn(prior, current, pos, state.ready, state.waiting, ready, exited, all, nodes);
      state := state.(ready := Without(state.ready, pos));
    }

    // ---- thread control blocks, index, locks ----

    /** Assigns the status and the context of a thread. */
    method SetThread(t: Thread, status: Status, context: Context)
      requires Valid() && t in state.tcb
      modifies t, this`state
      ensures Valid() && state == SetTcb(old(state), t, Tcb(status, context))
    {
      hide QueuesAgree, LocksAgree, IndexAgrees;
      t.status := status;
      t.context := context;
      state := SetTcb(state, t, Tcb(status, context));
    }

    method SetIndex(i: nat, t: Thread)
      requires Valid() && i < THREAD_MAX_THREADS
      modifies index, this`state
      ensures Valid() && state == old(state).(index := old(state).index[i := t])
    {
      hide QueuesAgree, LocksAgree, ThreadsAgree;
      index[i] := t;
      state := state.(index := state.index[i := t]);
    }

    method ClearIndex(i: nat)
      requires Valid() && i < THREAD_MAX_THREADS
      modifies index, this`state
      ensures Valid() && state == old(state).(index := old(state).index - {i})
    {
      hide QueuesAgree, LocksAgree, ThreadsAgree;
      index[i] := null;
      state := state.(index := state.index - {i});
    }

    method SetLock(l: Lock, holder: Thread?)
      requires Valid() && l in state.locks
      modifies l, this`state
      ensures Valid() && state == old(state).(locks := old(state).locks[l := OrNone(holder)])
    {
      hide QueuesAgree, IndexAgrees, ThreadsAgree;
      l.lockedThread := holder;
      l.locked := holder != null;
      assert LockAgrees(l, OrNone(holder));
      hide LockAgrees, OrNone;
      state := state.(locks := state.locks[l := OrNone(holder)]);
    }

    /** Records an event; no field of the program changes. */
    ghost method Record(e: Event)
      requires Valid()
      modifies this`state
      ensures Valid() && state == Happens(old(state), e)
    {
      state := Happens(state, e);
    }

    // ---- reading ----

    /** Queue_top(thread_ReadyQueue): the running thread */
    method Head() returns (t: Thread)
      requires Valid() && state.ready != []
      ensures t == state.ready[0]
    {
      hide ThreadsAgree, LocksAgree, IndexAgrees;
      assert ready.Valid() && ready.size == |ready.Contents()|;
      t := ready.Top();
    }

    /** The thread behind the running one. */
    method Control() returns (t: Thread)
      requires Valid() && 1 < |state.ready|
      ensures t == state.ready[1]
    {
      hide ThreadsAgree, LocksAgree, IndexAgrees;
      assert ready.Valid() && ready.size == |ready.Contents()|;
      t := ready.Second();
    }

    method ReadySize() returns (n: nat)
      requires Valid()
      ensures n == |state.ready|
    {
      hide ThreadsAgree, LocksAgree, IndexAgrees;
      assert ready.Valid() && ready.size == |ready.Contents()|;
      n := ready.size;
    }

    /** The first of a wait queue; null if it is empty. */
    method FirstWaiting(q: WaitQueue) returns (t: Thread?)
      requires Valid() && q in state.waiting
      ensures t == if state.waiting[q] == [] then null else state.waiting[q][0]
    {
      hide ThreadsAgree, LocksAgree, IndexAgrees;
      assert q.queue.Valid() && q.queue.size == |q.queue.Contents()|;
      if q.queue.size == 0 { return null; }
      t := q.queue.Top();
    }

    /** interrupts_set */
    method InterruptsSet(enabled: bool) returns (was: bool)
      requires Valid()
      modifies this`interrupts, this`state
      ensures Valid() && was == old(interrupts) && interrupts == enabled
      ensures state == if enabled then Happens(old(state), Enabled) else old(state)
    {
      was := interrupts;
      interrupts := enabled;
      if enabled { Record(Enabled); }
    }

    // ---- switching ----

    /** The running thread leaves the ready queue to sleep. */
    method LeaveReady(context: Context) returns (current: Thread)
      requires Valid() && state.ready != [] && state.ready[0] in state.tcb
      modifies this`state, all, nodes, state.tcb.Keys
      ensures Valid() && current == old(state).ready[0]
      ensures state == SetTcb(old(state).(ready := old(state).ready[1..]), current, Tcb(Sleep, context))
    {
      hide Scheduler.Valid, SetTcb;
      current := Head();
      PopReady();
      SetThread(current, Sleep, context);
    }

    method JoinWait(q: WaitQueue, t: Thread)
      requires Valid() && q in state.waiting
      modifies this`nodes, this`state, all, nodes
      ensures && Valid()
              && state == Happens(old(state).(waiting := old(state).waiting[q := old(state).waiting[q] + [t]]),
                                  Slept(t, q))
      ensures forall n :: n in nodes ==> n in old(nodes) || fresh(n)
    {
      hide Scheduler.Valid, Happens;
      PushWait(q, t);
      Record(Slept(t, q));
    }

    /** thread_sleep up to setcontext: the running thread goes to the end of the queue. */
    method SuspendOn(q: WaitQueue, context: Context)
      requires Valid() && state.ready != [] && q in state.waiting && state.ready[0] in state.tcb
      modifies this`nodes, this`state, all, nodes, state.tcb.Keys
      ensures Valid() && state == Suspend(old(state), q, context)
      ensures forall n :: n in nodes ==> n in old(nodes) || fresh(n)
    {
      SuspendSteps(state, q, context);
      hide Scheduler.Valid, Suspend, SetTcb, Happens;
      var current := LeaveReady(context);
      JoinWait(q, current);
    }

    /** setcontext to the head of the ready queue: what that thread does, where it was
        left, until it is back in its own code. */
    method Continue()
      requires Valid() && !interrupts && Core(state, 0, {}) && !state.hung
      modifies this, all, nodes, state.tcb.Keys, state.locks.Keys
      ensures Valid() && state == Dispatch(old(state)) && (state.hung || interrupts)
      ensures all == old(all) && forall n :: n in nodes ==> n in old(nodes) || fresh(n)
      decreases |state.ready|, 3
    {
      hide Scheduler.Valid, Core, Inv, Dispatch, AcquireLoop, Resumed;
      HeadKnown(state, 0);
      DispatchContinues(state);
      QuietEvent(state, Dispatched(state.ready[0]), 0, {});
      var current := Head();
      Record(Dispatched(current));
      var context := ContextOf(current);
      match context {
        case Fresh =>
          // thread_stub
          var was := InterruptsSet(true);
        case InYield => Resume(context);
        case InSleep => Resume(context);
        case InAcquire(l) => Resume(context);
        case InCvWait(l) => Resume(context);
      }
    }

    /** The code after getcontext, in the thread that is continued. */
    method Resume(context: Context)
      requires && Valid() && !interrupts && Core(state, 0, {}) && !state.hung
               && context == TcbOf(state, state.ready[0]).context && context != Fresh
      modifies this, all, nodes, state.tcb.Keys, state.locks.Keys
      ensures Valid() && (state.hung || interrupts)
      ensures state == Continued(Resumed(old(state)), context)
      ensures all == old(all) && forall n :: n in nodes ==> n in old(nodes) || fresh(n)
      decreases |state.ready|, 2
    {
      hide Scheduler.Valid, Core, Inv, Dispatch, AcquireLoop;
      HeadKnown(state, 0);
      HeadWants(state, 0);
      ResumedInv(state);
      var current := Head();
      SetThread(current, Run, context);
      ResumedShape(old(state));
      hide Resumed;
      assert state == Resumed(old(state));
      if context.InAcquire? {
        AcquireOrSleep(context.lock);
      } else if context.InCvWait? {
        AcquireOrSleep(context.lock);
      } else {
        var was := InterruptsSet(true);
      }
    }

    method ContextOf(t: Thread) returns (context: Context)
      requires Valid() && t in state.tcb
      ensures context == TcbOf(state, t).context
    {
      hide QueuesAgree, LocksAgree, IndexAgrees;
      context := t.context;
    }

    /** The loop of lock_acquire. Going round it again happens where the sleeping thread
        is continued. */
    method AcquireOrSleep(l: Lock)
      requires Valid() && !interrupts && Inv(state) && l in state.locks && !state.hung
      modifies this, all, nodes, state.tcb.Keys, state.locks.Keys
      ensures Valid() && state == AcquireLoop(old(state), l) && (state.hung || interrupts)
      ensures all == old(all) && forall n :: n in nodes ==> n in old(nodes) || fresh(n)
      decreases |state.ready|, 1
    {
      hide Scheduler.Valid, Core, Inv, Dispatch, AcquireLoop, Suspend, Taken, Happens;
      SomeReady(state);
      AcquireUnfold(state, l);
      var locked := IsLocked(l);
      if locked {
        var size := ReadySize();
        if size == 1 {
          // thread_sleep returns at once, again and again
          Hang();
          return;
        }
        SleepFor(l);
        return;
      }
      TakeLock(l);
      var was := InterruptsSet(true);
    }

    /** thread_sleep(lock->m_pQueue) with another thread ready. */
    method SleepFor(l: Lock)
      requires Valid() && !interrupts && Inv(state) && l in state.locks && !state.hung
      requires Owner(state, l).Some? && |state.ready| > 1
      modifies this, all, nodes, state.tcb.Keys, state.locks.Keys
      ensures Valid() && state == Dispatch(Suspend(old(state), l.queue, InAcquire(l))) && (state.hung || interrupts)
      ensures all == old(all) && forall n :: n in nodes ==> n in old(nodes) || fresh(n)
      decreases |state.ready|, 0
    {
      hide Scheduler.Valid, Core, Inv, Dispatch, Suspend;
      InvHead(state);
      SuspendForLock(state, l);
      SuspendShape(state, l.queue, InAcquire(l));
      SuspendOn(l.queue, InAcquire(l));
      Continue();
    }

    method TakeLock(l: Lock)
      requires Valid() && l in state.locks && state.ready != []
      modifies this`state, state.locks.Keys
      ensures Valid() && state == Taken(old(state), l)
    {
      hide Scheduler.Valid;
      var current := Head();
      SetLock(l, current);
      Record(Took(l, current));
    }

    ghost method Hang()
      requires Valid()
      modifies this`state
      ensures Valid() && state == old(state).(hung := true)
    {
      state := state.(hung := true);
    }

    method IsLocked(l: Lock) returns (locked: bool)
      requires Valid() && l in state.locks
      ensures locked <==> Owner(state, l).Some?
    {
      hide QueuesAgree, ThreadsAgree, IndexAgrees;
      locked := l.locked;
    }
  }

  lemma SuspendSteps(s: State, q: WaitQueue, context: Context)
    requires s.ready != [] && q in s.waiting
    ensures var s2 := SetTcb(s.(ready := s.ready[1..]), s.ready[0], Tcb(Sleep, context));
            && q in s2.waiting
            && Suspend(s, q, context) == Happens(s2.(waiting := s2.waiting[q := s2.waiting[q] + [s.ready[0]]]),
                                                 Slept(s.ready[0], q))
  {}

  lemma SuspendForLock(s: State, l: Lock)
    requires Inv(s) && l in s.locks && Owner(s, l).Some? && |s.ready| > 1
    ensures l.queue in s.waiting && Core(Suspend(s, l.queue, InAcquire(l)), 0, {})
  {
    HeadWants(s, 1);
    SuspendKeeps(s, l.queue, InAcquire(l));
    hide Core;
  }

  lemma SuspendShape(s: State, q: WaitQueue, context: Context)
    requires s.ready != [] && s.ready[0] in s.tcb
    ensures var s' := Suspend(s, q, context);
            |s'.ready| == |s.ready| - 1 && s'.tcb.Keys == s.tcb.Keys && s'.locks == s.locks && s'.hung == s.hung
  {}

  /** What a thread does when it is continued. */
  function Continued(s: State, context: Context): State
    requires s.ready != []
  {
    match context
    case Fresh => Happens(s, Enabled)
    case InYield => Happens(s, Enabled)
    case InSleep => Happens(s, Enabled)
    case InAcquire(l) => AcquireLoop(s, l)
    case InCvWait(l) => AcquireLoop(s, l)
  }

  lemma DispatchContinues(s: State)
    requires s.ready != []
    ensures var on, context := Happens(s, Dispatched(s.ready[0])), TcbOf(s, s.ready[0]).context;
            Dispatch(s) == Continued(if context.Fresh? then on else Resumed(on), context)
  {
    DispatchUnfold(s);
    hide Dispatch, AcquireLoop;
  }

  lemma ResumedInv(s: State)
    requires Core(s, 0, {}) && s.ready != [] && !TcbOf(s, s.ready[0]).context.Fresh?
    ensures Inv(Resumed(s))
  {
    ResumedKeeps(s);
    hide Core;
  }

  lemma ResumedShape(s: State)
    requires s.ready != [] && s.ready[0] in s.tcb
    ensures var s' := Resumed(s);
            && s' == SetTcb(s, s.ready[0], Tcb(Run, TcbOf(s, s.ready[0]).context))
            && s'.ready == s.ready && s'.tcb.Keys == s.tcb.Keys && s'.locks == s.locks && s'.hung == s.hung
  {}

  lemma HeadKnown(s: State, running: nat)
    requires Core(s, running, {})
    ensures s.ready != [] && s.ready[0] in s.tcb
  {
    assert s.ready[0] in s.ready;
  }

  lemma SomeReady(s: State)
    requires Inv(s)
    ensures s.ready != []
  {}

  lemma InvHead(s: State)
    requires Inv(s)
    ensures Core(s, 1, {}) && s.ready != [] && s.ready[0] in s.tcb
  {
    HeadKnown(s, 1);
  }
}
