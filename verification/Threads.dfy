/** threads/thread.c as a transition system: each call, up to the point where the thread
    that then runs is back in its own code, is one step. */
module Threads {
  import opened Options
  import opened Sequences
  import opened ThreadQueue

  type TableSize = n: nat | 2 <= n witness 1024
  const THREAD_MAX_THREADS: TableSize

  // ---- entities ----

  datatype Status = New | Run | Idle | Sleep

  /** Where a thread that does not run will continue. */
  datatype Context =
    | Fresh
    | InYield
    | InSleep
    | InAcquire(lock: Lock)
    | InCvWait(lock: Lock)

  class Thread {
    const id: nat
    var status: Status
    var context: Context

    constructor (id: nat, status: Status)
      ensures this.id == id && this.status == status && context == Fresh
    {
      this.id := id;
      this.status := status;
      context := Fresh;
    }
  }

  class WaitQueue {
    const queue: Queue<Thread>

    constructor ()
      ensures fresh(queue) && queue.Valid() && queue.Contents() == [] && queue.linkers == []
    {
      queue := new Queue();
    }
  }

  class Lock {
    var lockedThread: Thread?
    var locked: bool
    const queue: WaitQueue

    constructor (queue: WaitQueue)
      ensures this.queue == queue && !locked && lockedThread == null
    {
      this.queue := queue;
      locked := false;
      lockedThread := null;
    }
  }

  // ---- states ----

  datatype Tcb = Tcb(status: Status, context: Context)

  /** What happens inside the calls, in order. Enabled: interrupts are on again. */
  datatype Event =
    | Dispatched(t: Thread)
    | Slept(t: Thread, q: WaitQueue)
    | Woke(t: Thread, q: WaitQueue)
    | Took(l: Lock, t: Thread)
    | Released(l: Lock, t: Thread)
    | Enabled

  /** The head of `ready` runs. `hung`: it is in the loop of lock_acquire, nobody else is
      ready, and the lock is not free. */
  datatype State = State(ready: seq<Thread>, waiting: map<WaitQueue, seq<Thread>>, tcb: map<Thread, Tcb>,
                         index: map<nat, Thread>, locks: map<Lock, Option<Thread>>, log: seq<Event>, hung: bool)

  function TcbOf(s: State, t: Thread): Tcb {
    if t in s.tcb then s.tcb[t] else Tcb(New, Fresh)
  }

  function Waiting(s: State, q: WaitQueue): seq<Thread> {
    if q in s.waiting then s.waiting[q] else []
  }

  function Owner(s: State, l: Lock): Option<Thread> {
    if l in s.locks then s.locks[l] else None
  }

  function Happens(s: State, e: Event): State { s.(log := s.log + [e]) }

  function SetTcb(s: State, t: Thread, tcb: Tcb): State { s.(tcb := s.tcb[t := tcb]) }

  // ---- parts of steps ----

  /** The head leaves the ready queue for a wait queue. */
  function Suspend(s: State, q: WaitQueue, context: Context): State
    requires s.ready != []
  {
    var c := s.ready[0];
    SetTcb(s.(ready := s.ready[1..], waiting := s.waiting[q := Waiting(s, q) + [c]], log := s.log + [Slept(c, q)]),
           c, Tcb(Sleep, context))
  }

  /** setcontext to the head, and what it does until it is back in its own code. */
  function Dispatch(s: State): State
    requires s.ready != []
    decreases |s.ready|, 1
  {
    var c := s.ready[0];
    var on := Happens(s, Dispatched(c));
    match TcbOf(s, c).context
    case Fresh => Happens(on, Enabled)
    case InYield => Happens(Resumed(on), Enabled)
    case InSleep => Happens(Resumed(on), Enabled)
    case InAcquire(l) => AcquireLoop(Resumed(on), l)
    case InCvWait(l) => AcquireLoop(Resumed(on), l)
  }

  /** The head is marked as running. */
  function Resumed(s: State): State
    requires s.ready != []
  {
    SetTcb(s, s.ready[0], Tcb(Run, TcbOf(s, s.ready[0]).context))
  }

  /** The loop of lock_acquire: it sleeps until the lock is free, then takes it. */
  function AcquireLoop(s: State, l: Lock): State
    requires s.ready != []
    decreases |s.ready|, 0
  {
    var c := s.ready[0];
    if Owner(s, l).None? then
      Happens(s.(locks := s.locks[l := Some(c)], log := s.log + [Took(l, c)]), Enabled)
    else if |s.ready| == 1 then s.(hung := true)
    else Dispatch(Suspend(s, l.queue, InAcquire(l)))
  }

  function Waken(s: State, q: WaitQueue): State
    requires Waiting(s, q) != []
  {
    var t := Waiting(s, q)[0];
    SetTcb(s.(ready := s.ready + [t], waiting := s.waiting[q := Waiting(s, q)[1..]], log := s.log + [Woke(t, q)]),
           t, Tcb(Idle, TcbOf(s, t).context))
  }

  function WakenAll(s: State, q: WaitQueue): State
    decreases |Waiting(s, q)|
  {
    if Waiting(s, q) == [] then s else WakenAll(Waken(s, q), q)
  }

  /** The part of lock_release that changes the lock and wakes its waiters. */
  function LetGo(s: State, l: Lock): State
    requires s.ready != []
  {
    WakenAll(s.(locks := s.locks[l := None], log := s.log + [Released(l, s.ready[0])]), l.queue)
  }

  /** The position of the thread with this id in a queue; its length if there is none. */
  function Find(q: seq<Thread>, id: int): (k: nat)
    ensures k <= |q| && (k < |q| ==> q[k].id == id)
    ensures forall j :: 0 <= j < k ==> q[j].id != id
  {
    if q == [] then 0 else if q[0].id == id then 0 else 1 + Find(q[1..], id)
  }

  // ---- steps ----

  /** The calls, made by the running thread. A timer interrupt is YieldAny. `t`, `l` and
      `q` of the creating calls are the new objects. */
  datatype Step =
    | Create(t: Thread)
    | YieldAny
    | YieldTo(id: int)
    | ExitSelf
    | ExitAny
    | ExitId(id: int)
    | SleepOn(q: WaitQueue)
    | Wakeup(q: WaitQueue, everyone: bool)
    | NewQueue(q: WaitQueue)
    | NewLock(l: Lock)
    | Acquire(l: Lock)
    | Release(l: Lock)
    | CvWait(q: WaitQueue, l: Lock)
    | CvSignal(q: WaitQueue, l: Lock)
    | CvBroadcast(q: WaitQueue, l: Lock)

  function Removed(s: State, k: nat): State
    requires k < |s.ready|
  {
    s.(ready := Without(s.ready, k), index := s.index - {s.ready[k].id})
  }

  function YieldStep(s: State, id: int): State
    requires s.ready != []
  {
    var c, k := s.ready[0], Find(s.ready, id);
    if 0 < k < |s.ready| then
      Dispatch(SetTcb(s.(ready := MovedToTop(s.ready[1..], k - 1) + [c]), c, Tcb(Idle, InYield)))
    else Happens(s, Enabled)
  }

  function SleepStep(s: State, q: WaitQueue): State
    requires s.ready != []
  {
    if |s.ready| == 1 then Happens(s, Enabled) else Dispatch(Suspend(s, q, InSleep))
  }

  function WakeStep(s: State, q: WaitQueue, everyone: bool): State {
    if Waiting(s, q) == [] then s else if everyone then WakenAll(s, q) else Waken(s, q)
  }

  function CvWaitStep(s: State, q: WaitQueue, l: Lock): State
    requires s.ready != []
  {
    if Owner(s, l) != Some(s.ready[0]) then Happens(s, Enabled)
    else
      var free := LetGo(s, l);
      ReadyGrows(s.(locks := s.locks[l := None], log := s.log + [Released(l, s.ready[0])]), l.queue);
      if |free.ready| == 1 then AcquireLoop(free, l) else Dispatch(Suspend(free, q, InCvWait(l)))
  }

  lemma {:induction false} ReadyGrows(s: State, q: WaitQueue)
    ensures |WakenAll(s, q).ready| >= |s.ready|
    decreases |Waiting(s, q)|
  {
    if Waiting(s, q) != [] { ReadyGrows(Waken(s, q), q); }
  }

  function Next(s: State, step: Step): State
    requires s.ready != []
  {
    var c := s.ready[0];
    match step
    case Create(t) => Happens(SetTcb(s.(ready := s.ready + [t], index := s.index[t.id := t]), t, Tcb(New, Fresh)),
                              Enabled)
    case YieldAny =>
      if |s.ready| == 1 then Happens(s, Enabled)
      else Dispatch(SetTcb(s.(ready := s.ready[1..] + [c]), c, Tcb(Idle, InYield)))
    case YieldTo(id) => YieldStep(s, id)
    case ExitSelf => if |s.ready| == 1 then s else Dispatch(s.(ready := s.ready[1..], index := s.index - {c.id}))
    case ExitAny => Happens(if |s.ready| == 1 then s else Removed(s, |s.ready| - 1), Enabled)
    case ExitId(id) => Happens(if Find(s.ready, id) == |s.ready| then s else Removed(s, Find(s.ready, id)), Enabled)
    case SleepOn(q) => SleepStep(s, q)
    case Wakeup(q, everyone) => Happens(WakeStep(s, q, everyone), Enabled)
    case NewQueue(q) => s.(waiting := s.waiting[q := []])
    case NewLock(l) => Happens(s.(waiting := s.waiting[l.queue := []], locks := s.locks[l := None]), Enabled)
    case Acquire(l) => AcquireLoop(s, l)
    case Release(l) => Happens(LetGo(s, l), Enabled)
    case CvWait(q, l) => CvWaitStep(s, q, l)
    case CvSignal(q, l) => Happens(if Owner(s, l) == Some(c) then WakeStep(s, q, false) else s, Enabled)
    case CvBroadcast(q, l) => Happens(if Owner(s, l) == Some(c) then WakeStep(s, q, true) else s, Enabled)
  }

  /** thread_init */
  function Initial(main: Thread): State {
    State([main], map[], map[main := Tcb(Run, Fresh)], map[main.id := main], map[], [], false)
  }
}
