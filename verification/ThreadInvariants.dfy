/** What every run of the thread package keeps. */
module ThreadInvariants {
  import opened Options
  import opened Sequences
  import opened Threads

  // ---- history, read from the log alone ----

  /** The threads asleep in a queue, longest first. */
  function Waiters(log: seq<Event>, q: WaitQueue): seq<Thread> {
    if log == [] then []
    else
      var before := Waiters(log[..|log| - 1], q);
      match log[|log| - 1]
      case Slept(t, p) => if p == q then before + [t] else before
      case Woke(t, p) => if p == q && before != [] then before[1..] else before
      case _ => before
  }

  /** The threads that have taken a lock and not released it since. */
  function Inside(log: seq<Event>, l: Lock): set<Thread> {
    if log == [] then {}
    else
      var before := Inside(log[..|log| - 1], l);
      match log[|log| - 1]
      case Took(m, t) => if m == l then before + {t} else before
      case Released(m, t) => if m == l then before - {t} else before
      case _ => before
  }

  /** Whoever is woken has slept longest in that queue. */
  predicate FirstComeFirstWoken(log: seq<Event>) {
    log == [] ||
    (var before, e := log[..|log| - 1], log[|log| - 1];
     && FirstComeFirstWoken(before)
     && (e.Woke? ==> Waiters(before, e.q) != [] && Waiters(before, e.q)[0] == e.t))
  }

  lemma OneMore(log: seq<Event>, e: Event)
    ensures (log + [e])[..|log|] == log && (log + [e])[|log|] == e
    ensures FirstComeFirstWoken(log + [e]) <==>
              FirstComeFirstWoken(log) && (e.Woke? ==> Waiters(log, e.q) != [] && Waiters(log, e.q)[0] == e.t)
  {
    hide Waiters;
    assert (log + [e])[..|log|] == log;
  }

  // ---- the invariant ----

  type Waits = map<WaitQueue, seq<Thread>>
  type Tcbs = map<Thread, Tcb>
  type Locks = map<Lock, Option<Thread>>

  function Control(tcb: Tcbs, t: Thread): Tcb {
    if t in tcb then tcb[t] else Tcb(New, Fresh)
  }

  lemma ControlSet(tcb: Tcbs, c: Thread, x: Tcb)
    ensures Control(tcb[c := x], c) == x
    ensures forall t | t in tcb :: t != c ==> Control(tcb[c := x], t) == Control(tcb, t)
    ensures forall t :: t != c ==> Control(tcb[c := x], t) == Control(tcb, t)
  {}

  ghost predicate Queued(ready: seq<Thread>, waiting: Waits, t: Thread) {
    t in ready || exists q :: q in waiting && t in waiting[q]
  }

  /** Every thread is in at most one queue, once. */
  ghost predicate OnePlace(ready: seq<Thread>, waiting: Waits) {
    && Distinct(ready)
    && (forall q | q in waiting :: Distinct(waiting[q]))
    && (forall q, t | q in waiting && t in waiting[q] :: t !in ready)
    && (forall q, r, t | q in waiting && r in waiting && t in waiting[q] && t in waiting[r] :: q == r)
  }

  /** The index holds exactly the threads that are in a queue, each under its id. */
  ghost predicate IndexOk(ready: seq<Thread>, waiting: Waits, index: map<nat, Thread>, live: set<Thread>) {
    && (forall i | i in index :: i < THREAD_MAX_THREADS && index[i].id == i && Queued(ready, waiting, index[i]))
    && (forall t | t in ready :: t.id in index && index[t.id] == t && t in live)
    && (forall q, t | q in waiting && t in waiting[q] :: t.id in index && index[t.id] == t && t in live)
  }

  /** A thread that setcontext can start or continue. */
  predicate Resumable(tcb: Tcb) {
    (tcb.status == Idle && !tcb.context.Fresh?) || (tcb.status == New && tcb.context.Fresh?)
  }

  predicate Asleep(tcb: Tcb) {
    tcb.status == Sleep && (tcb.context.InSleep? || tcb.context.InAcquire? || tcb.context.InCvWait?)
  }

  /** Threads that are ready but do not run can be continued; those that wait sleep. */
  ghost predicate Parked(ready: seq<Thread>, waiting: Waits, tcb: Tcbs, running: nat) {
    && (forall i :: running <= i < |ready| ==> Resumable(Control(tcb, ready[i])))
    && (forall q, t | q in waiting && t in waiting[q] :: Asleep(Control(tcb, t)))
  }

  /** The lock a thread will take when it continues is a lock. */
  predicate WantsLock(tcb: Tcb, locks: Locks) {
    match tcb.context
    case InAcquire(l) => l in locks
    case InCvWait(l) => l in locks
    case _ => true
  }

  /** Locks have queues of their own, in which only threads that want the lock wait. */
  ghost predicate LockQueues(ready: seq<Thread>, waiting: Waits, tcb: Tcbs, locks: Locks) {
    && (forall l | l in locks :: l.queue in waiting)
    && (forall l, m | l in locks && m in locks && l.queue == m.queue :: l == m)
    && (forall l, t | l in locks && t in waiting[l.queue] :: Control(tcb, t).context == InAcquire(l))
    && (forall t | t in ready :: WantsLock(Control(tcb, t), locks))
    && (forall q, t | q in waiting && t in waiting[q] :: WantsLock(Control(tcb, t), locks))
  }

  /** No thread waits for a free lock; `but` is one that is being released. */
  ghost predicate NoneWaitsForFree(waiting: Waits, locks: Locks, but: set<Lock>) {
    forall l | l in locks && l !in but && locks[l].None? && l.queue in waiting :: waiting[l.queue] == []
  }

  /** The lock records exactly the thread that is between taking and releasing it. */
  ghost predicate Exclusive(locks: Locks, log: seq<Event>) {
    forall l | l in locks :: Inside(log, l) == if locks[l].Some? then {locks[l].value} else {}
  }

  ghost predicate InOrderOfSleep(waiting: Waits, log: seq<Event>) {
    FirstComeFirstWoken(log) && forall q | q in waiting :: waiting[q] == Waiters(log, q)
  }

  ghost predicate Core(s: State, running: nat, but: set<Lock>) {
    && s.ready != [] && OnePlace(s.ready, s.waiting) && IndexOk(s.ready, s.waiting, s.index, s.tcb.Keys)
    && Parked(s.ready, s.waiting, s.tcb, running) && LockQueues(s.ready, s.waiting, s.tcb, s.locks)
    && NoneWaitsForFree(s.waiting, s.locks, but)
    && Exclusive(s.locks, s.log) && InOrderOfSleep(s.waiting, s.log)
  }

  predicate Awake(tcb: Tcb) { tcb.status == Run || tcb.status == New }

  /** Between calls: the head runs. */
  ghost predicate Inv(s: State) {
    Core(s, 1, {}) && Awake(TcbOf(s, s.ready[0]))
  }

  // ---- the log ----

  predicate Quiet(e: Event) { e.Dispatched? || e.Enabled? }

  /** What an event does to the history of queues and locks. */
  lemma LogEvent(log: seq<Event>, e: Event)
    ensures forall q :: Waiters(log + [e], q) ==
              if e.Slept? && e.q == q then Waiters(log, q) + [e.t]
              else if e.Woke? && e.q == q && Waiters(log, q) != [] then Waiters(log, q)[1..]
              else Waiters(log, q)
    ensures forall l :: Inside(log + [e], l) ==
              if e.Took? && e.l == l then Inside(log, l) + {e.t}
              else if e.Released? && e.l == l then Inside(log, l) - {e.t}
              else Inside(log, l)
  {
    OneMore(log, e);
  }

  lemma QuietEvent(s: State, e: Event, running: nat, but: set<Lock>)
    requires Core(s, running, but) && Quiet(e)
    ensures Core(Happens(s, e), running, but)
  {
    OneMore(s.log, e);
    LogEvent(s.log, e);
    hide FirstComeFirstWoken, Waiters, Inside, OnePlace, IndexOk, Parked, LockQueues, NoneWaitsForFree;
  }

  // ---- threads that change queues ----

  lemma HeadLeaves<T>(s: seq<T>)
    requires s != [] && Distinct(s)
    ensures Distinct(s[1..]) && s[0] !in s[1..]
    ensures forall x :: x in s <==> x == s[0] || x in s[1..]
  {
    assert forall i :: 0 <= i < |s| - 1 ==> s[1..][i] == s[i + 1];
  }

  lemma JoinsEnd<T>(s: seq<T>, x: T)
    requires Distinct(s) && x !in s
    ensures Distinct(s + [x])
    ensures forall y :: y in s + [x] <==> y in s || y == x
  {}

  lemma SuspendPlaces(ready: seq<Thread>, waiting: Waits, q: WaitQueue)
    requires ready != [] && OnePlace(ready, waiting) && q in waiting
    ensures OnePlace(ready[1..], waiting[q := waiting[q] + [ready[0]]])
    ensures forall t :: Queued(ready[1..], waiting[q := waiting[q] + [ready[0]]], t) <==> Queued(ready, waiting, t)
  {
    var c, waiting' := ready[0], waiting[q := waiting[q] + [ready[0]]];
    HeadLeaves(ready);
    JoinsEnd(waiting[q], c);
    forall t ensures Queued(ready[1..], waiting', t) <==> Queued(ready, waiting, t) {
      if p :| p in waiting && t in waiting[p] { assert t in waiting'[p]; }
      if t == c { assert t in waiting'[q]; }
      if p :| p in waiting' && t in waiting'[p] && t != c { assert t in waiting[p]; }
    }
  }

  lemma WakenPlaces(ready: seq<Thread>, waiting: Waits, q: WaitQueue)
    requires OnePlace(ready, waiting) && q in waiting && waiting[q] != []
    ensures OnePlace(ready + [waiting[q][0]], waiting[q := waiting[q][1..]])
    ensures forall t :: Queued(ready + [waiting[q][0]], waiting[q := waiting[q][1..]], t) <==> Queued(ready, waiting, t)
  {
    var c, waiting' := waiting[q][0], waiting[q := waiting[q][1..]];
    HeadLeaves(waiting[q]);
    JoinsEnd(ready, c);
    forall t ensures Queued(ready + [c], waiting', t) <==> Queued(ready, waiting, t) {
      if p :| p in waiting && t in waiting[p] && t != c { assert t in waiting'[p]; }
      if t == c { assert t in waiting[q]; }
      if p :| p in waiting' && t in waiting'[p] { assert t in waiting[p]; }
    }
  }

  /** The same threads are in queues, so the index is right. */
  lemma IndexSame(ready: seq<Thread>, waiting: Waits, ready': seq<Thread>, waiting': Waits, index: map<nat, Thread>,
                  live: set<Thread>)
    requires IndexOk(ready, waiting, index, live)
    requires forall t :: Queued(ready', waiting', t) <==> Queued(ready, waiting, t)
    ensures IndexOk(ready', waiting', index, live)
  {
    forall t | t in ready' ensures t.id in index && index[t.id] == t && t in live {
      assert Queued(ready, waiting, t);
    }
    forall q, t | q in waiting' && t in waiting'[q] ensures t.id in index && index[t.id] == t && t in live {
      assert Queued(ready', waiting', t);
    }
  }

  /** Whether a thread may sleep in this queue, continuing there. */
  predicate MaySleep(s: State, q: WaitQueue, context: Context) {
    match context
    case InSleep => forall l | l in s.locks :: l.queue != q
    case InCvWait(l) => l in s.locks && forall m | m in s.locks :: m.queue != q
    case InAcquire(l) => l in s.locks && s.locks[l].Some? && l.queue == q
    case _ => false
  }

  /** Who waits after the head has gone to sleep. */
  lemma SuspendWaiters(ready: seq<Thread>, waiting: Waits, q: WaitQueue)
    requires ready != [] && OnePlace(ready, waiting) && q in waiting
    ensures forall p, t | p in waiting && t in waiting[q := waiting[q] + [ready[0]]][p] ::
              (p == q && t == ready[0]) || (t in waiting[p] && t != ready[0])
    ensures forall t | t in ready[1..] :: t in ready && t != ready[0]
  {
    assert ready[0] in ready;
    HeadLeaves(ready);
  }

  lemma SuspendParked(ready: seq<Thread>, waiting: Waits, tcb: Tcbs, q: WaitQueue, x: Tcb)
    requires ready != [] && OnePlace(ready, waiting) && Parked(ready, waiting, tcb, 1) && q in waiting && Asleep(x)
    ensures Parked(ready[1..], waiting[q := waiting[q] + [ready[0]]], tcb[ready[0] := x], 0)
  {
    SuspendWaiters(ready, waiting, q);
    ControlSet(tcb, ready[0], x);
    hide OnePlace, Asleep, Resumable;
    forall i | 0 <= i < |ready| - 1 ensures Resumable(Control(tcb[ready[0] := x], ready[1..][i])) {
      assert ready[1..][i] == ready[i + 1] && ready[1..][i] in ready[1..];
    }
    var waiting', tcb' := waiting[q := waiting[q] + [ready[0]]], tcb[ready[0] := x];
    forall p, t | p in waiting' && t in waiting'[p] ensures Asleep(Control(tcb', t)) {
      if t != ready[0] {
        assert t in waiting[p] && Control(tcb', t) == Control(tcb, t);
      }
    }
  }

  lemma SuspendLocks(ready: seq<Thread>, waiting: Waits, tcb: Tcbs, locks: Locks, q: WaitQueue, x: Tcb)
    requires ready != [] && OnePlace(ready, waiting) && LockQueues(ready, waiting, tcb, locks) && q in waiting
    requires WantsLock(x, locks) && forall l | l in locks && l.queue == q :: x.context == InAcquire(l)
    ensures LockQueues(ready[1..], waiting[q := waiting[q] + [ready[0]]], tcb[ready[0] := x], locks)
  {
    SuspendWaiters(ready, waiting, q);
    ControlSet(tcb, ready[0], x);
    hide OnePlace, WantsLock;
    var waiting', tcb' := waiting[q := waiting[q] + [ready[0]]], tcb[ready[0] := x];
    forall p, t | p in waiting' && t in waiting'[p]
      ensures (t == ready[0] && p == q) || (t != ready[0] && t in waiting[p])
    {}
    forall l, t | l in locks && t in waiting'[l.queue] ensures Control(tcb', t).context == InAcquire(l) {
      if t != ready[0] {
        assert t in waiting[l.queue] && Control(tcb', t) == Control(tcb, t);
      }
    }
    forall p, t | p in waiting' && t in waiting'[p] ensures WantsLock(Control(tcb', t), locks) {
      if t != ready[0] {
        assert t in waiting[p] && Control(tcb', t) == Control(tcb, t);
      }
    }
  }

  lemma SuspendKeeps(s: State, q: WaitQueue, context: Context)
    requires Core(s, 1, {}) && |s.ready| > 1 && q in s.waiting && MaySleep(s, q, context)
    ensures Core(Suspend(s, q, context), 0, {})
  {
    var c, s' := s.ready[0], Suspend(s, q, context);
    SuspendPlaces(s.ready, s.waiting, q);
    IndexSame(s.ready, s.waiting, s'.ready, s'.waiting, s.index, s.tcb.Keys);
    SuspendLive(s, q, context);
    SuspendHistory(s, q, context);
    SuspendParked(s.ready, s.waiting, s.tcb, q, Tcb(Sleep, context));
    SleepFits(s, q, context);
    SuspendLocks(s.ready, s.waiting, s.tcb, s.locks, q, Tcb(Sleep, context));
    hide IndexOk, Parked, LockQueues, OnePlace, Exclusive, InOrderOfSleep, MaySleep, NoneWaitsForFree;
  }

  lemma SuspendLive(s: State, q: WaitQueue, context: Context)
    requires Core(s, 1, {})
    ensures Suspend(s, q, context).tcb.Keys == s.tcb.Keys
  {
    assert s.ready[0] in s.tcb;
  }

  lemma SleepFits(s: State, q: WaitQueue, context: Context)
    requires LockQueues(s.ready, s.waiting, s.tcb, s.locks) && MaySleep(s, q, context)
    ensures WantsLock(Tcb(Sleep, context), s.locks) && Asleep(Tcb(Sleep, context))
    ensures forall l | l in s.locks && l.queue == q :: context == InAcquire(l)
  {}

  lemma SuspendHistory(s: State, q: WaitQueue, context: Context)
    requires s.ready != [] && q in s.waiting && Exclusive(s.locks, s.log) && InOrderOfSleep(s.waiting, s.log)
    requires && NoneWaitsForFree(s.waiting, s.locks, {}) && MaySleep(s, q, context)
             && LockQueues(s.ready, s.waiting, s.tcb, s.locks)
    ensures var s' := Suspend(s, q, context);
            Exclusive(s'.locks, s'.log) && InOrderOfSleep(s'.waiting, s'.log) && NoneWaitsForFree(s'.waiting,
                s'.locks, {})
  {
    OneMore(s.log, Slept(s.ready[0], q));
    LogEvent(s.log, Slept(s.ready[0], q));
    SleepFits(s, q, context);
    hide FirstComeFirstWoken, Waiters, Inside, LockQueues;
  }

  // ---- Resumed, taking a lock ----

  lemma HeadApart(ready: seq<Thread>, waiting: Waits)
    requires ready != [] && OnePlace(ready, waiting)
    ensures forall i :: 0 < i < |ready| ==> ready[i] != ready[0]
    ensures forall q, t | q in waiting && t in waiting[q] :: t != ready[0]
  {
    assert ready[0] in ready;
  }

  lemma ResumedLocks(ready: seq<Thread>, waiting: Waits, tcb: Tcbs, locks: Locks, c: Thread)
    requires LockQueues(ready, waiting, tcb, locks)
    ensures LockQueues(ready, waiting, tcb[c := Tcb(Run, Control(tcb, c).context)], locks)
  {
    var tcb' := tcb[c := Tcb(Run, Control(tcb, c).context)];
    ControlSet(tcb, c, Tcb(Run, Control(tcb, c).context));
    forall t
      ensures && Control(tcb', t).context == Control(tcb, t).context
              && (WantsLock(Control(tcb', t), locks) <==> WantsLock(Control(tcb, t), locks))
    {
      WantsContext(Control(tcb', t), Control(tcb, t), locks);
    }
    hide WantsLock, Control;
  }

  lemma ResumedParked(ready: seq<Thread>, waiting: Waits, tcb: Tcbs, x: Tcb)
    requires ready != [] && OnePlace(ready, waiting) && Parked(ready, waiting, tcb, 0)
    ensures Parked(ready, waiting, tcb[ready[0] := x], 1)
  {
    HeadApart(ready, waiting);
    ControlSet(tcb, ready[0], x);
    hide OnePlace, Asleep, Resumable;
    var tcb' := tcb[ready[0] := x];
    forall i | 1 <= i < |ready| ensures Resumable(Control(tcb', ready[i])) {
      assert Control(tcb', ready[i]) == Control(tcb, ready[i]);
    }
    forall q, t | q in waiting && t in waiting[q] ensures Asleep(Control(tcb', t)) {
      assert Control(tcb', t) == Control(tcb, t);
    }
  }

  lemma ResumedKeeps(s: State)
    requires Core(s, 0, {}) && !TcbOf(s, s.ready[0]).context.Fresh?
    ensures Core(Resumed(s), 1, {}) && Awake(TcbOf(Resumed(s), s.ready[0]))
  {
    var c, s' := s.ready[0], Resumed(s);
    ResumedParked(s.ready, s.waiting, s.tcb, Tcb(Run, Control(s.tcb, c).context));
    ResumedLocks(s.ready, s.waiting, s.tcb, s.locks, c);
    assert s'.tcb.Keys == s.tcb.Keys by { assert c in s.tcb; }
    hide OnePlace, IndexOk, Parked, LockQueues, Exclusive, InOrderOfSleep, NoneWaitsForFree;
  }

  lemma WantsContext(x: Tcb, y: Tcb, locks: Locks)
    requires x.context == y.context
    ensures WantsLock(x, locks) <==> WantsLock(y, locks)
  {}

  /** Which lock is held does not matter to the queues of locks. */
  lemma LockQueuesKeys(ready: seq<Thread>, waiting: Waits, tcb: Tcbs, locks: Locks, locks': Locks)
    requires LockQueues(ready, waiting, tcb, locks) && locks'.Keys == locks.Keys
    ensures LockQueues(ready, waiting, tcb, locks')
  {
    forall x: Tcb ensures WantsLock(x, locks') <==> WantsLock(x, locks) {}
    hide WantsLock;
  }

  function Taken(s: State, l: Lock): State
    requires s.ready != []
  {
    s.(locks := s.locks[l := Some(s.ready[0])], log := s.log + [Took(l, s.ready[0])])
  }

  lemma TakenHistory(waiting: Waits, locks: Locks, log: seq<Event>, l: Lock, c: Thread)
    requires Exclusive(locks, log) && InOrderOfSleep(waiting, log) && NoneWaitsForFree(waiting, locks, {})
    requires l in locks && locks[l].None?
    ensures Exclusive(locks[l := Some(c)], log + [Took(l, c)]) && InOrderOfSleep(waiting, log + [Took(l, c)])
    ensures NoneWaitsForFree(waiting, locks[l := Some(c)], {})
  {
    OneMore(log, Took(l, c));
    LogEvent(log, Took(l, c));
    hide FirstComeFirstWoken, Waiters, Inside;
  }

  lemma TakenKeeps(s: State, l: Lock)
    requires Core(s, 1, {}) && l in s.locks && s.locks[l].None?
    ensures Core(Taken(s, l), 1, {})
  {
    var s' := Taken(s, l);
    LockQueuesKeys(s.ready, s.waiting, s.tcb, s.locks, s'.locks);
    TakenHistory(s.waiting, s.locks, s.log, l, s.ready[0]);
    hide OnePlace, IndexOk, Parked, LockQueues, Exclusive, InOrderOfSleep, NoneWaitsForFree;
  }

  // ---- Waken, releasing a lock ----

  /** Who waits after the first of a queue has been woken. */
  lemma WakenWaiters(ready: seq<Thread>, waiting: Waits, q: WaitQueue)
    requires OnePlace(ready, waiting) && q in waiting && waiting[q] != []
    ensures forall p, t | p in waiting && t in waiting[q := waiting[q][1..]][p] :: t in waiting[p] && t != waiting[q][0]
    ensures waiting[q][0] in waiting[q] && forall t | t in ready :: t != waiting[q][0]
  {
    HeadLeaves(waiting[q]);
    assert waiting[q][0] in waiting[q];
  }

  lemma WakenParked(ready: seq<Thread>, waiting: Waits, tcb: Tcbs, q: WaitQueue)
    requires && ready != [] && OnePlace(ready, waiting) && Parked(ready, waiting, tcb, 1) && q in waiting
             && waiting[q] != []
    ensures var t := waiting[q][0];
            Parked(ready + [t], waiting[q := waiting[q][1..]], tcb[t := Tcb(Idle, Control(tcb, t).context)], 1)
  {
    var c := waiting[q][0];
    var waiting', tcb' := waiting[q := waiting[q][1..]], tcb[c := Tcb(Idle, Control(tcb, c).context)];
    WakenWaiters(ready, waiting, q);
    ControlSet(tcb, c, Tcb(Idle, Control(tcb, c).context));
    assert Asleep(Control(tcb, c));
    assert Resumable(Control(tcb', c));
    hide OnePlace, Asleep, Resumable;
    forall i | 1 <= i < |ready| + 1 ensures Resumable(Control(tcb', (ready + [c])[i])) {
      if i < |ready| { assert ready[i] in ready; }
    }
    forall p, t | p in waiting' && t in waiting'[p] ensures Asleep(Control(tcb', t)) {
      assert t in waiting[p] && Control(tcb', t) == Control(tcb, t);
    }
  }

  lemma WakenLocks(ready: seq<Thread>, waiting: Waits, tcb: Tcbs, locks: Locks, q: WaitQueue)
    requires OnePlace(ready, waiting) && LockQueues(ready, waiting, tcb, locks) && q in waiting && waiting[q] != []
    ensures var t := waiting[q][0];
            LockQueues(ready + [t], waiting[q := waiting[q][1..]], tcb[t := Tcb(Idle, Control(tcb, t).context)], locks)
  {
    var c := waiting[q][0];
    var waiting', tcb' := waiting[q := waiting[q][1..]], tcb[c := Tcb(Idle, Control(tcb, c).context)];
    WakenWaiters(ready, waiting, q);
    ControlSet(tcb, c, Tcb(Idle, Control(tcb, c).context));
    WantsContext(Tcb(Idle, Control(tcb, c).context), Control(tcb, c), locks);
    hide OnePlace, WantsLock;
    forall l, t | l in locks && t in waiting'[l.queue] ensures Control(tcb', t).context == InAcquire(l) {
      assert t in waiting[l.queue] && Control(tcb', t) == Control(tcb, t);
    }
    forall p, t | p in waiting' && t in waiting'[p] ensures WantsLock(Control(tcb', t), locks) {
      assert t in waiting[p] && Control(tcb', t) == Control(tcb, t);
    }
    forall t | t in ready + [c] ensures WantsLock(Control(tcb', t), locks) {
      if t != c { assert t in ready && Control(tcb', t) == Control(tcb, t); }
    }
  }

  lemma WakenHistory(s: State, q: WaitQueue, but: set<Lock>)
    requires q in s.waiting && s.waiting[q] != [] && Exclusive(s.locks, s.log) && InOrderOfSleep(s.waiting, s.log)
    requires NoneWaitsForFree(s.waiting, s.locks, but)
    ensures var s' := Waken(s, q);
            Exclusive(s'.locks, s'.log) && InOrderOfSleep(s'.waiting, s'.log) && NoneWaitsForFree(s'.waiting,
                s'.locks, but)
  {
    OneMore(s.log, Woke(s.waiting[q][0], q));
    LogEvent(s.log, Woke(s.waiting[q][0], q));
    hide FirstComeFirstWoken, Waiters, Inside;
  }

  lemma WakenKeeps(s: State, q: WaitQueue, but: set<Lock>)
    requires Core(s, 1, but) && Waiting(s, q) != []
    ensures Core(Waken(s, q), 1, but) && Waken(s, q).ready[0] == s.ready[0]
    ensures TcbOf(Waken(s, q), s.ready[0]) == TcbOf(s, s.ready[0])
  {
    var s' := Waken(s, q);
    WakenPlaces(s.ready, s.waiting, q);
    IndexSame(s.ready, s.waiting, s'.ready, s'.waiting, s.index, s.tcb.Keys);
    WakenWaiters(s.ready, s.waiting, q);
    assert s'.tcb.Keys == s.tcb.Keys by { assert s.waiting[q][0] in s.tcb; }
    WakenHistory(s, q, but);
    WakenParked(s.ready, s.waiting, s.tcb, q);
    WakenLocks(s.ready, s.waiting, s.tcb, s.locks, q);
    assert s.ready[0] in s.ready;
    hide IndexOk, Parked, LockQueues, OnePlace, Exclusive, InOrderOfSleep, NoneWaitsForFree;
  }

  /** Waking a whole queue, first come first woken. */
  lemma {:induction false} WakenAllKeeps(s: State, q: WaitQueue, but: set<Lock>)
    requires Core(s, 1, but)
    ensures var s' := WakenAll(s, q);
            && Core(s', 1, but) && s'.ready == s.ready + Waiting(s, q) && Waiting(s', q) == []
            && TcbOf(s', s.ready[0]) == TcbOf(s, s.ready[0])
            && SameButQueue(s, s', q)
    decreases |Waiting(s, q)|
  {
    WakenAllStep(s, q);
    hide Core, WakenAll, TcbOf;
    if Waiting(s, q) != [] {
      var s1, w := Waken(s, q), Waiting(s, q);
      WakenKeeps(s, q, but);
      WakenShape(s, q);
      hide Waken, Waiting;
      WakenAllKeeps(s1, q, but);
      assert s.ready + w == s1.ready + w[1..];
    }
  }

  lemma WakenAllStep(s: State, q: WaitQueue)
    ensures WakenAll(s, q) == if Waiting(s, q) == [] then s else WakenAll(Waken(s, q), q)
  {}

  lemma WakenShape(s: State, q: WaitQueue)
    requires Waiting(s, q) != []
    ensures var s', w := Waken(s, q), Waiting(s, q);
            s'.ready == s.ready + [w[0]] && Waiting(s', q) == w[1..] && SameButQueue(s, s', q)
  {}

  /** Locks, index and the other queues are as before. */
  predicate SameButQueue(s: State, s': State, q: WaitQueue) {
    && s'.locks == s.locks && s'.index == s.index && s'.hung == s.hung && s'.waiting.Keys == s.waiting.Keys
    && forall p | p in s.waiting && p != q :: s'.waiting[p] == s.waiting[p]
  }

  lemma LetGoHistory(waiting: Waits, locks: Locks, log: seq<Event>, l: Lock, c: Thread)
    requires Exclusive(locks, log) && InOrderOfSleep(waiting, log) && NoneWaitsForFree(waiting, locks, {})
    requires l in locks && locks[l] == Some(c)
    ensures Exclusive(locks[l := None], log + [Released(l, c)]) && InOrderOfSleep(waiting, log + [Released(l, c)])
    ensures NoneWaitsForFree(waiting, locks[l := None], {l})
  {
    OneMore(log, Released(l, c));
    LogEvent(log, Released(l, c));
    hide FirstComeFirstWoken, Waiters, Inside;
  }

  /** The lock being let go is free and has no waiters; who runs has not changed. */
  lemma LetGoKeeps(s: State, l: Lock)
    requires Core(s, 1, {}) && Owner(s, l) == Some(s.ready[0])
    ensures var s' := LetGo(s, l);
            && Core(s', 1, {}) && s'.ready == s.ready + Waiting(s, l.queue) && Owner(s', l) == None
            && TcbOf(s', s.ready[0]) == TcbOf(s, s.ready[0]) && s'.locks.Keys == s.locks.Keys
            && s'.waiting.Keys == s.waiting.Keys
            && s'.hung == s.hung
  {
    var c := s.ready[0];
    var free := s.(locks := s.locks[l := None], log := s.log + [Released(l, c)]);
    LockQueuesKeys(s.ready, s.waiting, s.tcb, s.locks, free.locks);
    LetGoHistory(s.waiting, s.locks, s.log, l, c);
    hide OnePlace, IndexOk, Parked, LockQueues, Exclusive, InOrderOfSleep;
    assert Core(free, 1, {l}) by { hide NoneWaitsForFree; }
    WakenAllKeeps(free, l.queue, {l});
    hide WakenAll;
  }

  // ---- Dispatch ----

  lemma StartKeeps(s: State)
    requires Core(s, 0, {}) && TcbOf(s, s.ready[0]).context.Fresh?
    ensures Inv(s)
  {
    assert Resumable(Control(s.tcb, s.ready[0]));
    hide OnePlace, IndexOk, LockQueues, Exclusive, InOrderOfSleep, NoneWaitsForFree;
  }

  /** What a thread that gets the processor does first. */
  lemma DispatchUnfold(s: State)
    requires s.ready != []
    ensures var on := Happens(s, Dispatched(s.ready[0]));
            match TcbOf(s, s.ready[0]).context
            case Fresh => Dispatch(s) == Happens(on, Enabled)
            case InYield => Dispatch(s) == Happens(Resumed(on), Enabled)
            case InSleep => Dispatch(s) == Happens(Resumed(on), Enabled)
            case InAcquire(l) => Dispatch(s) == AcquireLoop(Resumed(on), l)
            case InCvWait(l) => Dispatch(s) == AcquireLoop(Resumed(on), l)
  {}

  /** One turn of the loop of lock_acquire. */
  lemma AcquireUnfold(s: State, l: Lock)
    requires s.ready != []
    ensures AcquireLoop(s, l) ==
            if Owner(s, l).None? then Happens(Taken(s, l), Enabled)
            else if |s.ready| == 1 then s.(hung := true)
            else Dispatch(Suspend(s, l.queue, InAcquire(l)))
  {}

  lemma HeadWants(s: State, running: nat)
    requires Core(s, running, {})
    ensures WantsLock(TcbOf(s, s.ready[0]), s.locks)
    ensures forall l | l in s.locks :: l.queue in s.waiting
  {
    assert s.ready[0] in s.ready;
  }

  /** Handing the processor on keeps the invariant. */
  lemma {:induction false} DispatchKeeps(s: State)
    requires Core(s, 0, {})
    ensures Inv(Dispatch(s))
    decreases |s.ready|, 1
  {
    var c := s.ready[0];
    var on := Happens(s, Dispatched(c));
    QuietEvent(s, Dispatched(c), 0, {});
    HeadWants(on, 0);
    hide Core;
    match TcbOf(s, c).context
    case Fresh =>
      StartKeeps(on);
      InvQuiet(on, Enabled);
    case InYield =>
      ResumedKeeps(on);
      InvQuiet(Resumed(on), Enabled);
    case InSleep =>
      ResumedKeeps(on);
      InvQuiet(Resumed(on), Enabled);
    case InAcquire(l) =>
      ResumedKeeps(on);
      AcquireKeeps(Resumed(on), l);
    case InCvWait(l) =>
      ResumedKeeps(on);
      AcquireKeeps(Resumed(on), l);
  }

  lemma InvQuiet(s: State, e: Event)
    requires Inv(s) && Quiet(e)
    ensures Inv(Happens(s, e))
  {
    QuietEvent(s, e, 1, {});
    hide Core;
  }

  lemma {:induction false} AcquireKeeps(s: State, l: Lock)
    requires Inv(s) && l in s.locks
    ensures Inv(AcquireLoop(s, l))
    decreases |s.ready|, 0
  {
    HeadWants(s, 1);
    if Owner(s, l).None? {
      TakenKeeps(s, l);
      hide Core;
      InvQuiet(Taken(s, l), Enabled);
    } else if |s.ready| == 1 {
      HungKeeps(s);
    } else {
      SuspendKeeps(s, l.queue, InAcquire(l));
      hide Core;
      DispatchKeeps(Suspend(s, l.queue, InAcquire(l)));
    }
  }

  lemma HungKeeps(s: State)
    requires Inv(s)
    ensures Inv(s.(hung := true))
  {}

  // ---- the other steps ----

  /** The head yields: the ready queue is reordered, with the head last. */
  lemma YieldPlaces(ready: seq<Thread>, waiting: Waits, ready': seq<Thread>)
    requires OnePlace(ready, waiting) && Distinct(ready') && forall t :: t in ready' <==> t in ready
    ensures OnePlace(ready', waiting)
    ensures forall t :: Queued(ready', waiting, t) <==> Queued(ready, waiting, t)
  {}

  lemma YieldLocks(ready: seq<Thread>, waiting: Waits, tcb: Tcbs, locks: Locks, ready': seq<Thread>, x: Tcb)
    requires && ready != [] && OnePlace(ready, waiting) && LockQueues(ready, waiting, tcb, locks)
             && (forall t :: t in ready' <==> t in ready)
    requires WantsLock(x, locks)
    ensures LockQueues(ready', waiting, tcb[ready[0] := x], locks)
  {
    var c, tcb' := ready[0], tcb[ready[0] := x];
    HeadApart(ready, waiting);
    ControlSet(tcb, c, x);
    hide OnePlace, WantsLock, Control;
    forall l, t | l in locks && t in waiting[l.queue] ensures Control(tcb', t).context == InAcquire(l) {
      assert l.queue in waiting && Control(tcb', t) == Control(tcb, t);
    }
    forall p, t | p in waiting && t in waiting[p] ensures WantsLock(Control(tcb', t), locks) {
      assert Control(tcb', t) == Control(tcb, t);
    }
    forall t | t in ready' ensures WantsLock(Control(tcb', t), locks) {
      if t != c { assert t in ready && Control(tcb', t) == Control(tcb, t); }
    }
  }

  lemma YieldParked(ready: seq<Thread>, waiting: Waits, tcb: Tcbs, ready': seq<Thread>, x: Tcb)
    requires && ready != [] && OnePlace(ready, waiting) && Parked(ready, waiting, tcb, 1)
             && (forall t :: t in ready' <==> t in ready)
    requires Resumable(x)
    ensures Parked(ready', waiting, tcb[ready[0] := x], 0)
  {
    var c, tcb' := ready[0], tcb[ready[0] := x];
    HeadApart(ready, waiting);
    ControlSet(tcb, c, x);
    hide OnePlace, Asleep, Resumable, Control;
    forall i | 0 <= i < |ready'| ensures Resumable(Control(tcb', ready'[i])) {
      assert ready'[i] in ready;
      var j :| 0 <= j < |ready| && ready[j] == ready'[i];
      if j > 0 { assert Control(tcb', ready[j]) == Control(tcb, ready[j]); }
    }
    forall p, t | p in waiting && t in waiting[p] ensures Asleep(Control(tcb', t)) {
      assert Control(tcb', t) == Control(tcb, t);
    }
  }

  lemma YieldKeeps(s: State, ready': seq<Thread>)
    requires Core(s, 1, {}) && Distinct(ready') && forall t :: t in ready' <==> t in s.ready
    ensures ready' != [] && Core(SetTcb(s.(ready := ready'), s.ready[0], Tcb(Idle, InYield)), 0, {})
  {
    var c, s' := s.ready[0], SetTcb(s.(ready := ready'), s.ready[0], Tcb(Idle, InYield));
    assert c in s.ready && c in ready';
    YieldPlaces(s.ready, s.waiting, ready');
    IndexSame(s.ready, s.waiting, ready', s.waiting, s.index, s.tcb.Keys);
    YieldParked(s.ready, s.waiting, s.tcb, ready', Tcb(Idle, InYield));
    YieldLocks(s.ready, s.waiting, s.tcb, s.locks, ready', Tcb(Idle, InYield));
    assert s'.tcb.Keys == s.tcb.Keys by { assert c in s.tcb; }
    hide OnePlace, IndexOk, Parked, LockQueues, Exclusive, InOrderOfSleep, NoneWaitsForFree, Distinct;
  }

  /** The two orders a yield makes hold the same threads. */
  lemma YieldOrders(ready: seq<Thread>, k: nat)
    requires Distinct(ready) && 0 < k < |ready|
    ensures var r := MovedToTop(ready[1..], k - 1) + [ready[0]];
            Distinct(r) && forall t :: t in r <==> t in ready
    ensures var r := ready[1..] + [ready[0]];
            Distinct(r) && forall t :: t in r <==> t in ready
  {
    HeadLeaves(ready);
    MovedDistinct(ready[1..], k - 1);
    JoinsEnd(MovedToTop(ready[1..], k - 1), ready[0]);
    JoinsEnd(ready[1..], ready[0]);
    hide MovedToTop, Distinct;
  }

  lemma WithoutOne<T>(s: seq<T>, k: nat, x: T)
    requires Distinct(s) && k < |s|
    ensures x in Without(s, k) <==> x in s && x != s[k]
  {
    if x in s && x != s[k] {
      var i :| 0 <= i < |s| && s[i] == x;
      assert Without(s, k)[if i < k then i else i - 1] == x;
    }
  }

  /** A thread leaves the ready queue and the index. */
  lemma LeavesPlaces(ready: seq<Thread>, waiting: Waits, ready': seq<Thread>, x: Thread)
    requires OnePlace(ready, waiting) && Distinct(ready') && x in ready && forall t :: t in ready' <==>
               t in ready && t != x
    ensures OnePlace(ready', waiting)
    ensures forall t :: Queued(ready', waiting, t) <==> Queued(ready, waiting, t) && t != x
  {
    hide Distinct;
    forall t ensures Queued(ready', waiting, t) <==> Queued(ready, waiting, t) && t != x {}
  }

  lemma LeavesIndex(ready: seq<Thread>, waiting: Waits, index: map<nat, Thread>, live: set<Thread>,
                    ready': seq<Thread>, x: Thread)
    requires IndexOk(ready, waiting, index, live) && x in ready
    requires forall t :: Queued(ready', waiting, t) <==> Queued(ready, waiting, t) && t != x
    ensures IndexOk(ready', waiting, index - {x.id}, live)
  {
    var index' := index - {x.id};
    forall t | t in ready' ensures t.id in index' && index'[t.id] == t && t in live {
      assert Queued(ready', waiting, t);
    }
    forall q, t | q in waiting && t in waiting[q] ensures t.id in index' && index'[t.id] == t && t in live {
      assert Queued(ready', waiting, t);
    }
    forall i | i in index' ensures Queued(ready', waiting, index'[i]) {
      assert Queued(ready, waiting, index[i]);
    }
  }

  lemma LeavesLocks(ready: seq<Thread>, waiting: Waits, tcb: Tcbs, locks: Locks, ready': seq<Thread>)
    requires LockQueues(ready, waiting, tcb, locks) && forall t :: t in ready' ==> t in ready
    ensures LockQueues(ready', waiting, tcb, locks)
  {
    hide WantsLock, Control;
  }

  /** A thread other than the head leaves for good, and so does its id. */
  lemma RemovedKeeps(s: State, k: nat)
    requires Inv(s) && 0 < k < |s.ready|
    ensures Inv(Removed(s, k)) && Removed(s, k).ready[0] == s.ready[0]
  {
    var x, ready' := s.ready[k], Without(s.ready, k);
    MovedDistinct(s.ready, k);
    forall t ensures t in ready' <==> t in s.ready && t != x { WithoutOne(s.ready, k, t); }
    LeavesPlaces(s.ready, s.waiting, ready', x);
    LeavesIndex(s.ready, s.waiting, s.index, s.tcb.Keys, ready', x);
    LeavesLocks(s.ready, s.waiting, s.tcb, s.locks, ready');
    assert ready'[0] == s.ready[0];
    forall i | 1 <= i < |ready'| ensures ready'[i] == s.ready[if i < k then i else i + 1] {}
    hide IndexOk, OnePlace, LockQueues, Exclusive, InOrderOfSleep, NoneWaitsForFree, Distinct, Without, Resumable,
         Asleep, Control;
    assert Parked(ready', s.waiting, s.tcb, 1);
  }

  /** The running thread leaves for good. */
  lemma ExitKeeps(s: State)
    requires Inv(s) && |s.ready| > 1
    ensures Core(s.(ready := s.ready[1..], index := s.index - {s.ready[0].id}), 0, {})
  {
    var c, ready' := s.ready[0], s.ready[1..];
    HeadLeaves(s.ready);
    LeavesPlaces(s.ready, s.waiting, ready', c);
    LeavesIndex(s.ready, s.waiting, s.index, s.tcb.Keys, ready', c);
    LeavesLocks(s.ready, s.waiting, s.tcb, s.locks, ready');
    forall i | 0 <= i < |ready'| ensures ready'[i] == s.ready[i + 1] {}
    hide IndexOk, OnePlace, LockQueues, Exclusive, InOrderOfSleep, NoneWaitsForFree, Distinct, Resumable, Asleep,
         Control;
    assert Parked(ready', s.waiting, s.tcb, 0);
  }

  // ---- new threads, queues and locks ----

  lemma CreateKeeps(s: State, t: Thread)
    requires Inv(s) && t !in s.tcb && t.id !in s.index && t.id < THREAD_MAX_THREADS
    ensures var s' := SetTcb(s.(ready := s.ready + [t], index := s.index[t.id := t]), t, Tcb(New, Fresh));
            Inv(s')
  {
    var ready', index', tcb' := s.ready + [t], s.index[t.id := t], s.tcb[t := Tcb(New, Fresh)];
    NewThread(s.ready, s.waiting, s.index, s.tcb.Keys, t);
    CreateTcb(s.ready, s.waiting, s.tcb, s.locks, t);
    assert tcb'.Keys == s.tcb.Keys + {t};
    assert Control(tcb', s.ready[0]) == Control(s.tcb, s.ready[0]) by { assert s.ready[0] in s.tcb; }
    hide IndexOk, OnePlace, Parked, LockQueues, Exclusive, InOrderOfSleep, NoneWaitsForFree;
  }

  lemma NewThread(ready: seq<Thread>, waiting: Waits, index: map<nat, Thread>, live: set<Thread>, t: Thread)
    requires && OnePlace(ready, waiting) && IndexOk(ready, waiting, index, live) && t !in live && t.id !in index
             && t.id < THREAD_MAX_THREADS
    ensures OnePlace(ready + [t], waiting) && IndexOk(ready + [t], waiting, index[t.id := t], live + {t})
  {
    JoinsEnd(ready, t);
    hide Distinct;
    forall x ensures Queued(ready + [t], waiting, x) <==> Queued(ready, waiting, x) || x == t {}
    var index' := index[t.id := t];
    forall i | i in index' ensures Queued(ready + [t], waiting, index'[i]) {
      if i != t.id { assert Queued(ready, waiting, index[i]); }
    }
  }

  lemma CreateTcb(ready: seq<Thread>, waiting: Waits, tcb: Tcbs, locks: Locks, t: Thread)
    requires ready != [] && Parked(ready, waiting, tcb, 1) && LockQueues(ready, waiting, tcb, locks)
    requires forall x | x in ready :: x in tcb
    requires forall q, x | q in waiting && x in waiting[q] :: x in tcb
    requires t !in tcb
    ensures Parked(ready + [t], waiting, tcb[t := Tcb(New, Fresh)], 1)
    ensures LockQueues(ready + [t], waiting, tcb[t := Tcb(New, Fresh)], locks)
  {
    var tcb' := tcb[t := Tcb(New, Fresh)];
    ControlSet(tcb, t, Tcb(New, Fresh));
    assert Resumable(Tcb(New, Fresh)) && WantsLock(Tcb(New, Fresh), locks);
    hide Resumable, Asleep, WantsLock, Control;
    forall i | 1 <= i < |ready| + 1 ensures Resumable(Control(tcb', (ready + [t])[i])) {
      if i < |ready| { assert ready[i] in ready && Control(tcb', ready[i]) == Control(tcb, ready[i]); }
    }
    forall q, x | q in waiting && x in waiting[q]
      ensures Asleep(Control(tcb', x)) && WantsLock(Control(tcb', x), locks)
    {
      assert Control(tcb', x) == Control(tcb, x);
    }
    forall l, x | l in locks && x in waiting[l.queue] ensures Control(tcb', x).context == InAcquire(l) {
      assert l.queue in waiting && Control(tcb', x) == Control(tcb, x);
    }
    forall x | x in ready + [t] ensures WantsLock(Control(tcb', x), locks) {
      if x != t { assert x in ready && Control(tcb', x) == Control(tcb, x); }
    }
  }

  /** No event so far is about this queue. */
  predicate UnusedQueue(log: seq<Event>, q: WaitQueue) {
    forall k :: 0 <= k < |log| ==> (log[k].Slept? || log[k].Woke? ==> log[k].q != q)
  }

  predicate UnusedLock(log: seq<Event>, l: Lock) {
    forall k :: 0 <= k < |log| ==> (log[k].Took? || log[k].Released? ==> log[k].l != l)
  }

  lemma QueuePlaces(ready: seq<Thread>, waiting: Waits, tcb: Tcbs, locks: Locks, q: WaitQueue)
    requires && OnePlace(ready, waiting) && Parked(ready, waiting, tcb, 1) && LockQueues(ready, waiting, tcb, locks)
             && q !in waiting
    ensures && OnePlace(ready, waiting[q := []]) && Parked(ready, waiting[q := []], tcb, 1)
            && LockQueues(ready, waiting[q := []], tcb, locks)
    ensures forall t :: Queued(ready, waiting[q := []], t) <==> Queued(ready, waiting, t)
  {
    var waiting' := waiting[q := []];
    forall p, t | p in waiting' && t in waiting'[p] ensures p in waiting && t in waiting[p] {}
    forall t ensures Queued(ready, waiting', t) <==> Queued(ready, waiting, t) {
      if p :| p in waiting && t in waiting[p] { assert t in waiting'[p]; }
    }
    hide Resumable, Asleep, WantsLock, Control;
  }

  lemma NewQueueKeeps(s: State, q: WaitQueue)
    requires Inv(s) && q !in s.waiting && UnusedQueue(s.log, q)
    ensures Inv(s.(waiting := s.waiting[q := []]))
  {
    var waiting' := s.waiting[q := []];
    QueuePlaces(s.ready, s.waiting, s.tcb, s.locks, q);
    IndexSame(s.ready, s.waiting, s.ready, waiting', s.index, s.tcb.Keys);
    QueueHistory(s, q);
    hide IndexOk, OnePlace, Parked, LockQueues, Exclusive, InOrderOfSleep, NoneWaitsForFree;
  }

  lemma QueueHistory(s: State, q: WaitQueue)
    requires && InOrderOfSleep(s.waiting, s.log) && NoneWaitsForFree(s.waiting, s.locks, {}) && q !in s.waiting
             && UnusedQueue(s.log, q)
    ensures InOrderOfSleep(s.waiting[q := []], s.log) && NoneWaitsForFree(s.waiting[q := []], s.locks, {})
  {
    QueueUnused(s.log, q);
    hide FirstComeFirstWoken, Waiters;
  }

  lemma {:induction false} QueueUnused(log: seq<Event>, q: WaitQueue)
    requires UnusedQueue(log, q)
    ensures Waiters(log, q) == []
  {
    if log != [] {
      QueueUnused(log[..|log| - 1], q);
    }
  }

  lemma {:induction false} LockUnused(log: seq<Event>, l: Lock)
    requires UnusedLock(log, l)
    ensures Inside(log, l) == {}
  {
    if log != [] {
      LockUnused(log[..|log| - 1], l);
    }
  }

  lemma NewLockKeeps(s: State, l: Lock)
    requires Inv(s) && l !in s.locks && l.queue !in s.waiting && UnusedQueue(s.log, l.queue) && UnusedLock(s.log, l)
    ensures Inv(s.(waiting := s.waiting[l.queue := []], locks := s.locks[l := None]))
  {
    var s1 := s.(waiting := s.waiting[l.queue := []]);
    NewQueueKeeps(s, l.queue);
    LockUnused(s.log, l);
    assert forall m | m in s.locks :: m.queue in s.waiting;
    AddLock(s1.ready, s1.waiting, s1.tcb, s.locks, s.log, l);
    hide IndexOk, OnePlace, Parked, LockQueues, Exclusive, InOrderOfSleep, NoneWaitsForFree;
  }

  lemma AddLock(ready: seq<Thread>, waiting: Waits, tcb: Tcbs, locks: Locks, log: seq<Event>, l: Lock)
    requires LockQueues(ready, waiting, tcb, locks) && Exclusive(locks, log) && NoneWaitsForFree(waiting, locks, {})
    requires l !in locks && l.queue in waiting && waiting[l.queue] == [] && Inside(log, l) == {}
    requires forall m | m in locks :: m.queue != l.queue
    ensures && LockQueues(ready, waiting, tcb, locks[l := None]) && Exclusive(locks[l := None], log)
            && NoneWaitsForFree(waiting, locks[l := None], {})
  {
    hide Inside, Control;
  }

  // ---- every step, every run ----

  /** A wait queue that does not belong to a lock. */
  ghost predicate OwnWaitQueue(s: State, q: WaitQueue) {
    q in s.waiting && forall l | l in s.locks :: l.queue != q
  }

  /** The id a new thread gets: the least one from 1 on that is free. */
  ghost predicate NextId(s: State, id: nat) {
    1 <= id < THREAD_MAX_THREADS && id !in s.index && forall i: nat :: 1 <= i < id ==> i in s.index
  }

  /** The intended protocol: new objects are new, the last ready thread does not exit, a
      thread does not name itself to thread_exit, the queue inside a lock is left to the
      lock, and a lock is released by its holder. */
  ghost predicate Allowed(s: State, step: Step)
    requires s.ready != []
  {
    && !s.hung
    && match step
       case Create(t) => t !in s.tcb && NextId(s, t.id)
       case ExitSelf => |s.ready| > 1
       case ExitId(id) => id != s.ready[0].id
       case SleepOn(q) => OwnWaitQueue(s, q)
       case Wakeup(q, _) => OwnWaitQueue(s, q)
       case NewQueue(q) => q !in s.waiting && UnusedQueue(s.log, q)
       case NewLock(l) => l !in s.locks && l.queue !in s.waiting && UnusedQueue(s.log, l.queue) && UnusedLock(s.log, l)
       case Acquire(l) => l in s.locks
       case Release(l) => Owner(s, l) == Some(s.ready[0])
       case CvWait(q, l) => OwnWaitQueue(s, q) && l in s.locks
       case CvSignal(q, l) => OwnWaitQueue(s, q) && l in s.locks
       case CvBroadcast(q, l) => OwnWaitQueue(s, q) && l in s.locks
       case _ => true
  }

  lemma WakeStepKeeps(s: State, q: WaitQueue, everyone: bool)
    requires Inv(s)
    ensures Inv(Happens(WakeStep(s, q, everyone), Enabled))
  {
    if Waiting(s, q) != [] {
      WakenKeeps(s, q, {});
      WakenAllKeeps(s, q, {});
    }
    hide Core, Waken, WakenAll;
    InvQuiet(WakeStep(s, q, everyone), Enabled);
  }

  lemma ReadyDistinct(s: State)
    requires Inv(s)
    ensures s.ready != [] && Distinct(s.ready)
  {}

  lemma YieldStepKeeps(s: State, id: int)
    requires Inv(s)
    ensures Inv(YieldStep(s, id))
  {
    ReadyDistinct(s);
    hide Core, MovedToTop, Distinct;
    var k := Find(s.ready, id);
    if 0 < k < |s.ready| {
      YieldOrders(s.ready, k);
      var order := MovedToTop(s.ready[1..], k - 1) + [s.ready[0]];
      YieldKeeps(s, order);
      DispatchKeeps(SetTcb(s.(ready := order), s.ready[0], Tcb(Idle, InYield)));
    } else {
      InvQuiet(s, Enabled);
    }
  }

  lemma SleepStepKeeps(s: State, q: WaitQueue)
    requires Inv(s) && OwnWaitQueue(s, q)
    ensures Inv(SleepStep(s, q))
  {
    if |s.ready| == 1 {
      InvQuiet(s, Enabled);
    } else {
      SuspendKeeps(s, q, InSleep);
      hide Core, Suspend;
      DispatchKeeps(Suspend(s, q, InSleep));
    }
  }

  lemma CvWaitKeeps(s: State, q: WaitQueue, l: Lock)
    requires Inv(s) && OwnWaitQueue(s, q) && l in s.locks
    ensures Inv(CvWaitStep(s, q, l))
  {
    if Owner(s, l) != Some(s.ready[0]) {
      InvQuiet(s, Enabled);
    } else {
      var free := LetGo(s, l);
      LetGoKeeps(s, l);
      hide Core, LetGo;
      if |free.ready| == 1 {
        AcquireKeeps(free, l);
      } else {
        SuspendKeeps(free, q, InCvWait(l));
        DispatchKeeps(Suspend(free, q, InCvWait(l)));
      }
    }
  }

  lemma YieldAnyKeeps(s: State)
    requires Inv(s)
    ensures Inv(Next(s, YieldAny))
  {
    if |s.ready| == 1 {
      InvQuiet(s, Enabled);
    } else {
      YieldOrders(s.ready, 1);
      YieldKeeps(s, s.ready[1..] + [s.ready[0]]);
      hide Core;
      DispatchKeeps(SetTcb(s.(ready := s.ready[1..] + [s.ready[0]]), s.ready[0], Tcb(Idle, InYield)));
    }
  }

  lemma CreateAllowed(s: State, t: Thread)
    requires Inv(s) && t !in s.tcb && NextId(s, t.id)
    ensures Inv(SetTcb(s.(ready := s.ready + [t], index := s.index[t.id := t]), t, Tcb(New, Fresh)))
  {
    hide Inv;
    CreateKeeps(s, t);
  }

  lemma ReleaseKeeps(s: State, l: Lock)
    requires Inv(s) && s.ready != [] && Owner(s, l) == Some(s.ready[0])
    ensures Inv(Happens(LetGo(s, l), Enabled))
  {
    LetGoKeeps(s, l);
    hide Core, LetGo;
    InvQuiet(LetGo(s, l), Enabled);
  }

  lemma FindIsLater(s: State, id: int)
    requires s.ready != [] && id != s.ready[0].id
    ensures Find(s.ready, id) > 0
  {}

  /** Every allowed step keeps the invariant. */
  lemma NextKeeps(s: State, step: Step)
    requires Inv(s) && Allowed(s, step)
    ensures Inv(Next(s, step))
  {
    hide Core, Inv, Dispatch, AcquireLoop, YieldStep, SleepStep, CvWaitStep, WakeStep, LetGo, Distinct, Removed, Find,
         OwnWaitQueue, NextId, UnusedQueue, UnusedLock;
    ReadyDistinct(s);
    match step
    case Create(t) =>
      CreateAllowed(s, t);
      InvQuiet(SetTcb(s.(ready := s.ready + [t], index := s.index[t.id := t]), t, Tcb(New, Fresh)), Enabled);
    case YieldAny => YieldAnyKeeps(s);
    case YieldTo(id) => YieldStepKeeps(s, id);
    case ExitSelf =>
      ExitKeeps(s);
      DispatchKeeps(s.(ready := s.ready[1..], index := s.index - {s.ready[0].id}));
    case ExitAny =>
      if |s.ready| > 1 { RemovedKeeps(s, |s.ready| - 1); }
      InvQuiet(if |s.ready| == 1 then s else Removed(s, |s.ready| - 1), Enabled);
    case ExitId(id) =>
      FindIsLater(s, id);
      var k := Find(s.ready, id);
      if k < |s.ready| { RemovedKeeps(s, k); }
      InvQuiet(if k == |s.ready| then s else Removed(s, k), Enabled);
    case SleepOn(q) => SleepStepKeeps(s, q);
    case Wakeup(q, everyone) => WakeStepKeeps(s, q, everyone);
    case NewQueue(q) => NewQueueKeeps(s, q);
    case NewLock(l) =>
      NewLockKeeps(s, l);
      InvQuiet(s.(waiting := s.waiting[l.queue := []], locks := s.locks[l := None]), Enabled);
    case Acquire(l) => AcquireKeeps(s, l);
    case Release(l) => ReleaseKeeps(s, l);
    case CvWait(q, l) => CvWaitKeeps(s, q, l);
    case CvSignal(q, l) =>
      if Owner(s, l) == Some(s.ready[0]) { WakeStepKeeps(s, q, false); } else { InvQuiet(s, Enabled); }
    case CvBroadcast(q, l) =>
      if Owner(s, l) == Some(s.ready[0]) { WakeStepKeeps(s, q, true); } else { InvQuiet(s, Enabled); }
  }

  /** thread_init establishes it. */
  lemma InitialInv(main: Thread)
    requires main.id == 0
    ensures Inv(Initial(main))
  {
    var s := Initial(main);
    assert Queued(s.ready, s.waiting, main) by { assert main in s.ready; }
    assert s.ready == [main];
  }

  /** A run: the states after each step. */
  ghost predicate IsRun(states: seq<State>, steps: seq<Step>) {
    && |states| == |steps| + 1
    && states[0].ready != []
    && forall k :: 0 <= k < |steps| ==>
         states[k].ready != [] && Allowed(states[k], steps[k]) && states[k + 1] == Next(states[k], steps[k])
  }

  lemma {:induction false} RunKeeps(states: seq<State>, steps: seq<Step>, k: nat)
    requires IsRun(states, steps) && Inv(states[0]) && k < |states|
    ensures Inv(states[k])
  {
    if k > 0 {
      RunKeeps(states, steps, k - 1);
      hide Inv, Allowed;
      NextKeeps(states[k - 1], steps[k - 1]);
    }
  }
}
