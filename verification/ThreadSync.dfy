/** What locks and condition variables promise. */
module ThreadSync {
  import opened Options
  import opened Sequences
  import opened Threads
  import opened ThreadInvariants

  /** The calls on locks and condition variables, one by one. */
  lemma NextIs(s: State, q: WaitQueue, l: Lock)
    requires s.ready != []
    ensures Next(s, Acquire(l)) == AcquireLoop(s, l)
    ensures Next(s, Release(l)) == Happens(LetGo(s, l), Enabled)
    ensures Next(s, CvWait(q, l)) == CvWaitStep(s, q, l)
    ensures Next(s, CvSignal(q, l)) == Happens(if Owner(s, l) == Some(s.ready[0]) then WakeStep(s, q, false) else s,
                                               Enabled)
    ensures Next(s, CvBroadcast(q, l)) ==
              Happens(if Owner(s, l) == Some(s.ready[0]) then WakeStep(s, q, true) else s, Enabled)
  {
    hide AcquireLoop, LetGo, CvWaitStep, WakeStep;
  }

  // ---- the scheduler ----

  /** The queues that hold a thread: the ready queue counts as one. */
  ghost function PlacesOf(s: State, t: Thread): nat {
    (if t in s.ready then 1 else 0) + |set q | q in s.waiting && t in s.waiting[q]|
  }

  /** Each thread of the index is in exactly one queue, once, under its own id, and the
      threads in queues are in the index. */
  ghost predicate Partitioned(s: State) {
    && s.ready != [] && Distinct(s.ready) && (forall q | q in s.waiting :: Distinct(s.waiting[q]))
    && (forall i | i in s.index :: s.index[i].id == i && PlacesOf(s, s.index[i]) == 1)
    && (forall t | t in s.ready :: t.id in s.index && s.index[t.id] == t)
    && (forall q, t | q in s.waiting && t in s.waiting[q] :: t.id in s.index && s.index[t.id] == t)
  }

  /** The running thread is Run or New, other ready threads are Idle or New, and waiting
      threads Sleep. */
  ghost predicate StatusesRight(s: State) {
    && s.ready != [] && (TcbOf(s, s.ready[0]).status == Run || TcbOf(s, s.ready[0]).status == New)
    && (forall k :: 1 <= k < |s.ready| ==> (TcbOf(s, s.ready[k]).status == Idle || TcbOf(s, s.ready[k]).status == New))
    && (forall q, t | q in s.waiting && t in s.waiting[q] :: TcbOf(s, t).status == Sleep)
  }

  lemma PartitionedNow(s: State)
    requires Inv(s)
    ensures Partitioned(s)
  {
    hide Parked, LockQueues, NoneWaitsForFree, Exclusive, InOrderOfSleep, PlacesOf, TcbOf;
    forall i | i in s.index ensures PlacesOf(s, s.index[i]) == 1 { OnlyPlace(s, s.index[i]); }
  }

  lemma StatusesNow(s: State)
    requires Inv(s)
    ensures StatusesRight(s)
  {
    hide OnePlace, IndexOk, LockQueues, NoneWaitsForFree, Exclusive, InOrderOfSleep;
    forall k | 1 <= k < |s.ready| ensures TcbOf(s, s.ready[k]).status == Idle || TcbOf(s, s.ready[k]).status == New {
      assert Resumable(Control(s.tcb, s.ready[k]));
    }
    forall q, t | q in s.waiting && t in s.waiting[q] ensures TcbOf(s, t).status == Sleep {
      assert Asleep(Control(s.tcb, t));
    }
  }

  /** Both hold in every reachable state. */
  lemma SchedulerPartition(states: seq<State>, steps: seq<Step>, n: nat)
    requires IsRun(states, steps) && Inv(states[0]) && n < |states|
    ensures Partitioned(states[n]) && StatusesRight(states[n])
  {
    hide Inv, IsRun, Partitioned, StatusesRight;
    RunKeeps(states, steps, n);
    PartitionedNow(states[n]);
    StatusesNow(states[n]);
  }

  lemma OnlyPlace(s: State, t: Thread)
    requires OnePlace(s.ready, s.waiting) && Queued(s.ready, s.waiting, t)
    ensures PlacesOf(s, t) == 1
  {
    var places := set q | q in s.waiting && t in s.waiting[q];
    if t in s.ready {
      assert places == {};
    } else {
      var p :| p in s.waiting && t in s.waiting[p];
      assert places == {p};
    }
  }

  // ---- locks ----

  /** In every reachable state at most one thread is between taking and releasing a lock;
      it is the one on record; and a free lock has no waiters. */
  lemma LockSafety(states: seq<State>, steps: seq<Step>, n: nat, l: Lock)
    requires IsRun(states, steps) && Inv(states[0]) && n < |states| && l in states[n].locks
    ensures var s := states[n];
            && Inside(s.log, l) == (if s.locks[l].Some? then {s.locks[l].value} else {})
            && (s.locks[l].None? ==> Waiting(s, l.queue) == [])
  {
    RunKeeps(states, steps, n);
    hide OnePlace, IndexOk, Parked, InOrderOfSleep, Inside;
    assert l.queue in states[n].waiting;
  }

  /** The thread that runs after a switch holds the lock it was waiting for. */
  ghost predicate HoldsWhatItWanted(s: State, s': State) {
    s'.ready != [] && !s'.hung ==>
      match TcbOf(s, s'.ready[0]).context
      case InAcquire(l) => Owner(s', l) == Some(s'.ready[0])
      case InCvWait(l) => Owner(s', l) == Some(s'.ready[0])
      case _ => true
  }

  lemma {:induction false} DispatchHolds(s: State)
    requires s.ready != [] && Distinct(s.ready) && !s.hung
    ensures var s' := Dispatch(s);
            && s'.ready != [] && s'.ready[0] in s.ready && HoldsWhatItWanted(s, s')
    decreases |s.ready|, 1
  {
    var c := s.ready[0];
    var on := Resumed(Happens(s, Dispatched(c)));
    DispatchUnfold(s);
    hide Dispatch, AcquireLoop;
    match TcbOf(s, c).context
    case InAcquire(l) => AcquireHolds(on, l);
    case InCvWait(l) => AcquireHolds(on, l);
    case _ =>
  }

  /** lock_acquire: whoever runs at the end holds what it wanted, the caller the lock. */
  lemma {:induction false} AcquireHolds(s: State, l: Lock)
    requires s.ready != [] && Distinct(s.ready) && !s.hung
    ensures var s' := AcquireLoop(s, l);
            && s'.ready != [] && s'.ready[0] in s.ready
            && (s'.ready[0] == s.ready[0] && !s'.hung ==> Owner(s', l) == Some(s.ready[0]))
            && (s'.ready[0] != s.ready[0] ==> HoldsWhatItWanted(s, s'))
    decreases |s.ready|, 0
  {
    AcquireUnfold(s, l);
    hide Dispatch, AcquireLoop;
    if Owner(s, l).Some? && |s.ready| > 1 {
      HeadLeaves(s.ready);
      DispatchHolds(Suspend(s, l.queue, InAcquire(l)));
    }
  }

  lemma FreeHistory(waiting: Waits, locks: Locks, log: seq<Event>, l: Lock, c: Thread)
    requires Exclusive(locks, log) && InOrderOfSleep(waiting, log) && NoneWaitsForFree(waiting, locks, {})
    requires l in locks && locks[l].None?
    ensures Exclusive(locks[l := None], log + [Released(l, c)]) && InOrderOfSleep(waiting, log + [Released(l, c)])
    ensures NoneWaitsForFree(waiting, locks[l := None], {})
  {
    OneMore(log, Released(l, c));
    LogEvent(log, Released(l, c));
    hide FirstComeFirstWoken, Waiters, Inside;
  }

  lemma NoWaiters(s: State, l: Lock)
    requires Inv(s) && l in s.locks && s.locks[l].None?
    ensures Waiting(s, l.queue) == []
  {
    hide OnePlace, IndexOk, Parked, LockQueues, Exclusive, InOrderOfSleep;
  }

  /** Releasing a free lock changes nothing that matters. */
  lemma FreeReleased(s: State, l: Lock)
    requires Inv(s) && l in s.locks && s.locks[l].None?
    ensures Inv(Next(s, Release(l)))
  {
    var c := s.ready[0];
    var free := s.(locks := s.locks[l := None], log := s.log + [Released(l, c)]);
    NoWaiters(s, l);
    NextIs(s, l.queue, l);
    assert LetGo(s, l) == free;
    hide Next, LetGo;
    LockQueuesKeys(s.ready, s.waiting, s.tcb, s.locks, free.locks);
    FreeHistory(s.waiting, s.locks, s.log, l, c);
    hide OnePlace, IndexOk, Parked, LockQueues, Exclusive, InOrderOfSleep, NoneWaitsForFree;
    assert Inv(free);
    hide Inv;
    InvQuiet(free, Enabled);
  }

  lemma {:induction false} WakenAllInside(s: State, q: WaitQueue, l: Lock)
    ensures Inside(WakenAll(s, q).log, l) == Inside(s.log, l) && WakenAll(s, q).locks == s.locks
    decreases |Waiting(s, q)|
  {
    WakenAllStep(s, q);
    hide WakenAll;
    if Waiting(s, q) != [] {
      OneMore(s.log, Woke(Waiting(s, q)[0], q));
      WakenAllInside(Waken(s, q), q, l);
    }
  }

  lemma {:induction false} WakenAllHead(s: State, q: WaitQueue)
    ensures s.ready <= WakenAll(s, q).ready
    decreases |Waiting(s, q)|
  {
    WakenAllStep(s, q);
    hide WakenAll;
    if Waiting(s, q) != [] { WakenAllHead(Waken(s, q), q); }
  }

  /** After a release by another thread the lock is free, but its holder is still inside. */
  lemma ReleasedForAnother(s: State, l: Lock, h: Thread)
    requires s.ready != [] && h != s.ready[0] && Inside(s.log, l) == {h}
    ensures var after := Next(s, Release(l));
            && Inside(after.log, l) == {h} && Owner(after, l).None? && s.ready <= after.ready && l in after.locks
  {
    var free := s.(locks := s.locks[l := None], log := s.log + [Released(l, s.ready[0])]);
    OneMore(s.log, Released(l, s.ready[0]));
    WakenAllInside(free, l.queue, l);
    WakenAllHead(free, l.queue);
    OneMore(LetGo(s, l).log, Enabled);
    NextIs(s, l.queue, l);
    hide WakenAll, Next;
  }

  lemma HolderInside(s: State, l: Lock)
    requires Inv(s) && l in s.locks
    ensures Inside(s.log, l) == if s.locks[l].Some? then {s.locks[l].value} else {}
  {
    hide OnePlace, IndexOk, Parked, LockQueues, InOrderOfSleep, NoneWaitsForFree, Inside;
  }

  /** Two threads are inside at once as soon as the caller takes the lock that it has
      released for another. */
  lemma Violated(s: State, l: Lock)
    requires Inv(s) && s.ready != [] && l in s.locks && s.locks[l].Some? && s.locks[l].value != s.ready[0]
    ensures var after := Next(s, Release(l));
            && !Inv(after) && after.ready != []
            && {s.ready[0], s.locks[l].value} <= Inside(Next(after, Acquire(l)).log, l)
  {
    var c, h, after := s.ready[0], s.locks[l].value, Next(s, Release(l));
    HolderInside(s, l);
    ReleasedForAnother(s, l, h);
    hide Inv, LetGo, Next;
    if Inv(after) { HolderInside(after, l); }
    TakenInside(after, l);
  }

  lemma TakenInside(s: State, l: Lock)
    requires s.ready != [] && Owner(s, l).None?
    ensures Inside(Next(s, Acquire(l)).log, l) == Inside(s.log, l) + {s.ready[0]}
  {
    AcquireUnfold(s, l);
    OneMore(s.log, Took(l, s.ready[0]));
    OneMore(s.log + [Took(l, s.ready[0])], Enabled);
    hide AcquireLoop;
  }

  /** lock_release does not check its caller: it keeps the invariant exactly if the lock
      is free or the caller holds it. */
  lemma ReleaseSafeIff(s: State, l: Lock)
    requires Inv(s) && s.ready != [] && l in s.locks
    ensures Inv(Next(s, Release(l))) <==> Owner(s, l).None? || Owner(s, l) == Some(s.ready[0])
  {
    hide Core, LetGo;
    if Owner(s, l) == Some(s.ready[0]) {
      LetGoKeeps(s, l);
      InvQuiet(LetGo(s, l), Enabled);
    } else if Owner(s, l).None? {
      FreeReleased(s, l);
    } else {
      Violated(s, l);
    }
  }

  /** A run of two threads that comes to such a release: one takes the lock and yields, and
      the other, which does not hold it, runs. */
  lemma ReleaseByAnother(main: Thread, t: Thread, l: Lock) returns (states: seq<State>, steps: seq<Step>)
    requires main.id == 0 && t.id == 1 && t != main && 1 < THREAD_MAX_THREADS
    ensures IsRun(states, steps) && states[0] == Initial(main)
    ensures var s := states[|states| - 1];
            && s.ready != [] && l in s.locks && s.locks[l] == Some(main) && s.ready[0] == t
            && !Inv(Next(s, Release(l)))
  {
    hide Inv, Next, Allowed, Initial, Owner;
    var s0 := Initial(main);
    Created(main, t);
    var s1 := Next(s0, Create(t));
    LockMade(s1, main, t, l);
    var s2 := Next(s1, NewLock(l));
    LockTaken(s2, main, t, l);
    var s3 := Next(s2, Acquire(l));
    Preempted(s3, main, t, l);
    var s4 := Next(s3, YieldAny);
    states, steps := [s0, s1, s2, s3, s4], [Create(t), NewLock(l), Acquire(l), YieldAny];
    InitialInv(main);
    RunKeeps(states, steps, 4);
    ReleasedByOther(s4, main, t, l);
  }

  lemma ReleasedByOther(s: State, main: Thread, t: Thread, l: Lock)
    requires Inv(s) && s.ready == [t, main] && t != main && l in s.locks && s.locks[l] == Some(main)
    ensures !Inv(Next(s, Release(l)))
  {
    hide Inv, Next;
    ReleaseSafeIff(s, l);
  }

  lemma Created(main: Thread, t: Thread)
    requires main.id == 0 && t.id == 1 && t != main && 1 < THREAD_MAX_THREADS
    ensures Initial(main).ready != [] && Allowed(Initial(main), Create(t))
    ensures Next(Initial(main), Create(t)) ==
            State([main, t], map[], map[main := Tcb(Run, Fresh), t := Tcb(New, Fresh)], map[0 := main, 1 := t], map[],
                  [Enabled], false)
  {}

  lemma LockMade(s: State, main: Thread, t: Thread, l: Lock)
    requires s.ready == [main, t] && s.waiting == map[] && s.locks == map[] && s.log == [Enabled] && !s.hung
    ensures Allowed(s, NewLock(l))
    ensures var s' := Next(s, NewLock(l));
            s'.ready == [main, t] && l in s'.locks && s'.locks[l] == None && s'.tcb == s.tcb && !s'.hung
  {}

  lemma LockTaken(s: State, main: Thread, t: Thread, l: Lock)
    requires s.ready == [main, t] && l in s.locks && s.locks[l] == None && !s.hung
    ensures Allowed(s, Acquire(l))
    ensures var s' := Next(s, Acquire(l));
            s'.ready == [main, t] && l in s'.locks && s'.locks[l] == Some(main) && s'.tcb == s.tcb && !s'.hung
  {}

  lemma Preempted(s: State, main: Thread, t: Thread, l: Lock)
    requires && s.ready == [main, t] && t != main && TcbOf(s, t).context == Fresh && l in s.locks
             && s.locks[l] == Some(main) && !s.hung
    ensures Allowed(s, YieldAny)
    ensures var s' := Next(s, YieldAny); s'.ready == [t, main] && l in s'.locks && s'.locks[l] == Some(main)
  {
    assert s.ready[1..] + [main] == [t, main];
  }

  // ---- condition variables ----

  /** The events of cv_wait from releasing the lock to going to sleep: nobody else runs
      and interrupts stay off. */
  ghost predicate Unbroken(events: seq<Event>, c: Thread, q: WaitQueue, l: Lock) {
    && |events| >= 2 && events[0] == Released(l, c) && events[|events| - 1] == Slept(c, q)
    && forall k :: 0 < k < |events| - 1 ==> events[k].Woke? && events[k].q == l.queue
  }

  /** Nothing that has happened is forgotten, and no wait queue goes away. */
  ghost predicate Grows(s: State, s': State) {
    s.log <= s'.log && s.waiting.Keys <= s'.waiting.Keys
  }

  lemma {:induction false} WakenAllLog(s: State, q: WaitQueue)
    ensures Grows(s, WakenAll(s, q))
    ensures forall k ::
              |s.log| <= k < |WakenAll(s, q).log| ==> WakenAll(s, q).log[k].Woke? && WakenAll(s, q).log[k].q == q
    decreases |Waiting(s, q)|
  {
    WakenAllStep(s, q);
    hide WakenAll;
    if Waiting(s, q) != [] { WakenAllLog(Waken(s, q), q); }
  }

  lemma {:induction false} DispatchLog(s: State)
    requires s.ready != []
    ensures Grows(s, Dispatch(s))
    decreases |s.ready|, 1
  {
    DispatchUnfold(s);
    hide Dispatch, AcquireLoop;
    match TcbOf(s, s.ready[0]).context
    case InAcquire(l) => AcquireLog(Resumed(Happens(s, Dispatched(s.ready[0]))), l);
    case InCvWait(l) => AcquireLog(Resumed(Happens(s, Dispatched(s.ready[0]))), l);
    case _ =>
  }

  lemma {:induction false} AcquireLog(s: State, l: Lock)
    requires s.ready != []
    ensures Grows(s, AcquireLoop(s, l))
    decreases |s.ready|, 0
  {
    AcquireUnfold(s, l);
    hide Dispatch, AcquireLoop;
    if Owner(s, l).Some? && |s.ready| > 1 { DispatchLog(Suspend(s, l.queue, InAcquire(l))); }
  }

  lemma LetGoLog(s: State, l: Lock)
    requires s.ready != []
    ensures Grows(s, LetGo(s, l))
    ensures var log := LetGo(s, l).log;
            && s.log + [Released(l, s.ready[0])] <= log
            && forall k :: |s.log| < k < |log| ==> log[k].Woke? && log[k].q == l.queue
  {
    WakenAllLog(s.(locks := s.locks[l := None], log := s.log + [Released(l, s.ready[0])]), l.queue);
    hide WakenAll;
  }

  lemma SleepUnbroken(s: State, q: WaitQueue, l: Lock)
    requires s.ready != []
    ensures LetGo(s, l).ready != []
    ensures var log := Suspend(LetGo(s, l), q, InCvWait(l)).log;
            LetGo(s, l).ready[0] == s.ready[0] ==> s.log <= log && Unbroken(log[|s.log|..], s.ready[0], q, l)
  {
    var free, c := LetGo(s, l), s.ready[0];
    LetGoLog(s, l);
    LetGoReady(s, l);
    hide LetGo;
    var log := Suspend(free, q, InCvWait(l)).log;
    var events := log[|s.log|..];
    assert log == free.log + [Slept(free.ready[0], q)];
    assert free.log[|s.log|] == (s.log + [Released(l, c)])[|s.log|];
    forall k | 0 < k < |events| - 1 ensures events[k].Woke? && events[k].q == l.queue {
      assert events[k] == free.log[|s.log| + k];
    }
  }

  lemma LetGoReady(s: State, l: Lock)
    requires s.ready != []
    ensures s.ready <= LetGo(s, l).ready
  {
    WakenAllHead(s.(locks := s.locks[l := None], log := s.log + [Released(l, s.ready[0])]), l.queue);
    hide WakenAll;
  }

  lemma WaitSleeps(s: State, q: WaitQueue, l: Lock)
    requires s.ready != [] && Owner(s, l) == Some(s.ready[0]) && |LetGo(s, l).ready| > 1
    ensures var log := CvWaitStep(s, q, l).log;
            exists n :: |s.log| <= n <= |log| && Unbroken(log[|s.log|..n], s.ready[0], q, l)
  {
    hide LetGo, Dispatch, Unbroken;
    var asleep := Suspend(LetGo(s, l), q, InCvWait(l));
    LetGoReady(s, l);
    SleepUnbroken(s, q, l);
    DispatchLog(asleep);
    var n, log := |asleep.log|, Dispatch(asleep).log;
    assert CvWaitStep(s, q, l) == Dispatch(asleep);
    hide Suspend;
    assert log[|s.log|..n] == asleep.log[|s.log|..];
  }

  lemma WaitReturns(s: State, q: WaitQueue, l: Lock)
    requires s.ready != [] && Owner(s, l) == Some(s.ready[0])
    requires LetGo(s, l).ready == s.ready && |s.ready| == 1 && Owner(LetGo(s, l), l).None? && LetGo(s, l).hung == s.hung
    ensures var s' := CvWaitStep(s, q, l);
            s'.ready == s.ready && Owner(s', l) == Some(s.ready[0]) && s'.hung == s.hung
  {
    AcquireUnfold(LetGo(s, l), l);
    hide LetGo, AcquireLoop;
  }

  /** cv_wait by the holder: if another thread is ready once the lock has been released,
      the caller is asleep in the queue of the condition variable before anybody else
      runs; if not, it returns at once, holding the lock again. */
  lemma CvWaitAtomic(s: State, q: WaitQueue, l: Lock)
    requires s.ready != [] && Core(s, 1, {}) && Owner(s, l) == Some(s.ready[0])
    ensures var s', c := Next(s, CvWait(q, l)), s.ready[0];
            if |s.ready| + |Waiting(s, l.queue)| > 1
            then exists n :: |s.log| <= n <= |s'.log| && Unbroken(s'.log[|s.log|..n], c, q, l)
            else s'.ready == s.ready && Owner(s', l) == Some(c) && s'.hung == s.hung
  {
    hide Core;
    NextIs(s, q, l);
    LetGoKeeps(s, l);
    hide Next, LetGo, Unbroken, CvWaitStep;
    if |s.ready| + |Waiting(s, l.queue)| > 1 { WaitSleeps(s, q, l); } else { WaitReturns(s, q, l); }
  }

  lemma SleepersOf(s: State, q: WaitQueue)
    requires Inv(s) && q in s.waiting
    ensures Waiters(s.log, q) == Waiting(s, q)
  {
    hide Waiters, FirstComeFirstWoken, OnePlace, IndexOk, Parked, LockQueues;
  }

  /** Of a log: who sleeps in a queue stays there until the log says that it is woken. */
  lemma {:induction false} AsleepUntilWoken(log: seq<Event>, more: seq<Event>, t: Thread, q: WaitQueue)
    requires t in Waiters(log, q) && FirstComeFirstWoken(log + more)
    requires Woke(t, q) !in more
    ensures t in Waiters(log + more, q)
  {
    if more == [] {
      assert log + more == log;
    } else {
      var less, e := more[..|more| - 1], more[|more| - 1];
      assert more == less + [e] && (log + less) + [e] == log + more;
      OneMore(log + less, e);
      assert e in more && forall x :: x in less ==> x in more;
      AsleepUntilWoken(log, less, t, q);
      LogEvent(log + less, e);
      hide FirstComeFirstWoken, Waiters;
    }
  }

  /** Every step adds to what has happened. */
  lemma NextGrows(s: State, step: Step)
    requires s.ready != []
    ensures Grows(s, Next(s, step))
  {
    hide Next;
    if step.YieldAny? || step.YieldTo? || step.ExitSelf? || step.SleepOn? {
      SwitchGrows(s, step);
    } else {
      CallGrows(s, step);
    }
  }

  lemma SwitchGrows(s: State, step: Step)
    requires s.ready != [] && (step.YieldAny? || step.YieldTo? || step.ExitSelf? || step.SleepOn?)
    ensures Grows(s, Next(s, step))
  {
    hide Dispatch, Find, MovedToTop;
    var c := s.ready[0];
    if step.YieldAny? && |s.ready| > 1 { DispatchLog(SetTcb(s.(ready := s.ready[1..] + [c]), c, Tcb(Idle, InYield))); }
    if step.YieldTo? {
      var k := Find(s.ready, step.id);
      if 0 < k < |s.ready| {
        DispatchLog(SetTcb(s.(ready := MovedToTop(s.ready[1..], k - 1) + [c]), c, Tcb(Idle, InYield)));
      }
    }
    if step.ExitSelf? && |s.ready| > 1 { DispatchLog(s.(ready := s.ready[1..], index := s.index - {c.id})); }
    if step.SleepOn? && |s.ready| > 1 { DispatchLog(Suspend(s, step.q, InSleep)); }
  }

  lemma CallGrows(s: State, step: Step)
    requires s.ready != [] && !(step.YieldAny? || step.YieldTo? || step.ExitSelf? || step.SleepOn?)
    ensures Grows(s, Next(s, step))
  {
    hide Dispatch, AcquireLoop, LetGo, WakenAll, Find, CvWaitStep;
    match step
    case Wakeup(q, everyone) => WakenAllLog(s, q);
    case Acquire(l) => AcquireLog(s, l);
    case Release(l) => LetGoLog(s, l);
    case CvWait(q, l) => CvWaitLog(s, q, l);
    case CvSignal(q, l) => WakenAllLog(s, q);
    case CvBroadcast(q, l) => WakenAllLog(s, q);
    case _ =>
  }

  lemma CvWaitLog(s: State, q: WaitQueue, l: Lock)
    requires s.ready != []
    ensures Grows(s, CvWaitStep(s, q, l))
  {
    hide Dispatch, AcquireLoop, LetGo, WakenAll;
    var free := LetGo(s, l);
    LetGoLog(s, l);
    LetGoReady(s, l);
    AcquireLog(free, l);
    if |free.ready| > 1 { DispatchLog(Suspend(free, q, InCvWait(l))); }
  }

  lemma {:induction false} RunGrows(states: seq<State>, steps: seq<Step>, a: nat, b: nat)
    requires IsRun(states, steps) && a <= b < |states|
    ensures Grows(states[a], states[b])
    decreases b
  {
    hide Next, Allowed;
    if a < b {
      RunGrows(states, steps, a, b - 1);
      NextGrows(states[b - 1], steps[b - 1]);
    }
  }

  /** A thread that sleeps in a queue in some state of a run sleeps there in every later
      state up to the one by which it has been woken. */
  lemma SleepsUntilWoken(states: seq<State>, steps: seq<Step>, a: nat, b: nat, t: Thread, q: WaitQueue)
    requires IsRun(states, steps) && Inv(states[0]) && a <= b < |states|
    requires t in Waiting(states[a], q) && |states[a].log| <= |states[b].log|
    requires Woke(t, q) !in states[b].log[|states[a].log|..]
    ensures t in Waiting(states[b], q)
  {
    hide Inv, Waiters, FirstComeFirstWoken, Grows, Allowed, Next;
    RunKeeps(states, steps, a);
    RunKeeps(states, steps, b);
    RunGrows(states, steps, a, b);
    StaysAsleep(states[a], states[b], t, q);
  }

  lemma StaysAsleep(s: State, s': State, t: Thread, q: WaitQueue)
    requires Inv(s) && Inv(s') && Grows(s, s') && t in Waiting(s, q)
    requires Woke(t, q) !in s'.log[|s.log|..]
    ensures t in Waiting(s', q)
  {
    hide Inv, Waiters, FirstComeFirstWoken;
    SleepersOf(s, q);
    SleepersOf(s', q);
    WokenInOrder(s');
    var more := s'.log[|s.log|..];
    assert s'.log == s.log + more;
    AsleepUntilWoken(s.log, more, t, q);
  }

  lemma WokenInOrder(s: State)
    requires Inv(s)
    ensures FirstComeFirstWoken(s.log)
  {
    hide FirstComeFirstWoken, Waiters, OnePlace, IndexOk, Parked, LockQueues;
  }

  /** No wakeup is lost: while a thread waits on a condition variable, a signal wakes the
      thread that has waited longest, and a broadcast all of them in the order in which
      they went to sleep; those woken join the end of the ready queue. */
  lemma SignalWakes(s: State, q: WaitQueue, l: Lock)
    requires Inv(s) && s.ready != [] && q in s.waiting && Owner(s, l) == Some(s.ready[0])
    ensures var w, s1 := Waiters(s.log, q), Next(s, CvSignal(q, l));
            w != [] ==> s1.ready == s.ready + [w[0]] && Waiters(s1.log, q) == w[1..]
    ensures var w, s2 := Waiters(s.log, q), Next(s, CvBroadcast(q, l));
            s2.ready == s.ready + w && Waiters(s2.log, q) == []
  {
    var w := Waiting(s, q);
    assert Core(s, 1, {});
    SleepersOf(s, q);
    NextIs(s, q, l);
    hide Next, Core, Inv, Waiters, WakenAll;
    WakeStepKeeps(s, q, false);
    WakeStepKeeps(s, q, true);
    if w != [] {
      WakenShape(s, q);
      WakenAllKeeps(s, q, {});
      hide Waken;
      SleepersOf(Happens(Waken(s, q), Enabled), q);
      SleepersOf(Happens(WakenAll(s, q), Enabled), q);
    }
  }
}
