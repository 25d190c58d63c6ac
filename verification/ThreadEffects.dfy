/** What each call of the thread package does, seen from the queues: who runs next, who is
    ready in which order, and who sleeps. */
module ThreadEffects {
  import opened Options
  import opened Sequences
  import opened Threads
  import opened ThreadInvariants
  import opened ThreadProgress
  import opened ThreadSync

  // ---- the form of a result ----

  /** The processor is given to the first thread of `order`, and on down while those that
      get it go back to sleep; the threads that are then ready are the rest, in order. */
  ghost predicate Switched(s: State, s': State, order: seq<Thread>) {
    var j := |order| - |s'.ready|;
    && 0 <= j < |order| && s'.ready == order[j..]
    && Dispatches(s'.log) == Dispatches(s.log) + order[..j + 1]
  }

  /** Nobody else is given the processor. */
  ghost predicate Stayed(s: State, s': State, ready: seq<Thread>) {
    s'.ready == ready && Dispatches(s'.log) == Dispatches(s.log)
  }

  lemma DispatchSwitches(s: State, left: State)
    requires left.ready != [] && Dispatches(left.log) == Dispatches(s.log)
    ensures Switched(s, Dispatch(left), left.ready)
  {
    DispatchOrder(left);
    hide Dispatch, Dispatches;
    var j := |left.ready| - |Dispatch(left).ready|;
    assert left.ready[0..j + 1] == left.ready[..j + 1];
  }

  lemma EnabledStays(s: State, s': State)
    requires Dispatches(s'.log) == Dispatches(s.log)
    ensures Stayed(s, Happens(s', Enabled), s'.ready)
  {
    OneDispatch(s'.log, Enabled);
    hide Dispatches;
  }

  // ---- thread_create ----

  /** The new thread is ready, behind all others, under the id that was free. */
  lemma CreateIsLast(s: State, t: Thread)
    requires Inv(s) && Allowed(s, Create(t))
    ensures var s' := Next(s, Create(t));
            && Stayed(s, s', s.ready + [t]) && s'.waiting == s.waiting && s'.locks == s.locks
            && s'.index.Keys == s.index.Keys + {t.id} && s'.index[t.id] == t && t.id !in s.index
            && TcbOf(s', t) == Tcb(New, Fresh)
  {
    hide Core, Dispatches;
    EnabledStays(s, SetTcb(s.(ready := s.ready + [t], index := s.index[t.id := t]), t, Tcb(New, Fresh)));
  }

  // ---- thread_yield ----

  /** thread_yield(THREAD_ANY): the next thread runs, and the caller goes to the end. */
  lemma YieldAnySwitches(s: State)
    requires s.ready != []
    ensures var s', c := Next(s, YieldAny), s.ready[0];
            if |s.ready| == 1 then Stayed(s, s', s.ready) else Switched(s, s', s.ready[1..] + [c])
  {
    hide Dispatch, Dispatches;
    var c := s.ready[0];
    EnabledStays(s, s);
    if |s.ready| > 1 { DispatchSwitches(s, SetTcb(s.(ready := s.ready[1..] + [c]), c, Tcb(Idle, InYield))); }
  }

  lemma FindIs(s: State, k: nat)
    requires Inv(s) && k < |s.ready|
    ensures Find(s.ready, s.ready[k].id) == k
  {
    hide OnePlace, Parked, LockQueues, NoneWaitsForFree, Exclusive, InOrderOfSleep;
    ReadyDistinct(s);
    var j := Find(s.ready, s.ready[k].id);
    assert s.ready[j] in s.ready && s.ready[k] in s.ready;
  }

  /** thread_yield(tid) for a ready thread other than the caller: exactly that thread runs
      next, the others keep their order behind it, and the caller goes to the end. */
  lemma YieldToSwitches(s: State, k: nat)
    requires Inv(s) && 0 < k < |s.ready|
    ensures Switched(s, Next(s, YieldTo(s.ready[k].id)),
                     [s.ready[k]] + s.ready[1..k] + s.ready[k + 1..] + [s.ready[0]])
  {
    FindIs(s, k);
    hide Inv, Dispatch, Dispatches, Find, MovedToTop;
    YieldOrder(s.ready, k);
    var order := MovedToTop(s.ready[1..], k - 1) + [s.ready[0]];
    DispatchSwitches(s, SetTcb(s.(ready := order), s.ready[0], Tcb(Idle, InYield)));
  }

  lemma YieldOrder(q: seq<Thread>, k: nat)
    requires 0 < k < |q|
    ensures MovedToTop(q[1..], k - 1) + [q[0]] == [q[k]] + q[1..k] + q[k + 1..] + [q[0]]
  {
    hide MovedToTop;
    assert q == [q[0]] + q[1..k] + [q[k]] + q[k + 1..];
    SwitchOrder(q[0], q[1..k], q[k], q[k + 1..]);
  }

  /** For the caller's own id, and for one that no ready thread has, nothing happens. */
  lemma YieldToNobody(s: State, id: int)
    requires s.ready != [] && (id == s.ready[0].id || forall t :: t in s.ready ==> t.id != id)
    ensures Stayed(s, Next(s, YieldTo(id)), s.ready)
  {
    hide Dispatches;
    EnabledStays(s, s);
  }

  // ---- thread_exit ----

  /** thread_exit(THREAD_SELF): the next thread runs, and the caller is in no queue. */
  lemma ExitSelfSwitches(s: State)
    requires Inv(s) && |s.ready| > 1
    ensures var s' := Next(s, ExitSelf);
            Switched(s, s', s.ready[1..]) && s'.index == s.index - {s.ready[0].id}
  {
    hide Inv, Dispatch, Dispatches;
    var left := s.(ready := s.ready[1..], index := s.index - {s.ready[0].id});
    DispatchSwitches(s, left);
    DispatchIndex(left);
  }

  lemma {:induction false} DispatchIndex(s: State)
    requires s.ready != []
    ensures Dispatch(s).index == s.index
    decreases |s.ready|, 1
  {
    DispatchUnfold(s);
    hide Dispatch, AcquireLoop;
    match TcbOf(s, s.ready[0]).context
    case InAcquire(l) => AcquireIndex(Resumed(Happens(s, Dispatched(s.ready[0]))), l);
    case InCvWait(l) => AcquireIndex(Resumed(Happens(s, Dispatched(s.ready[0]))), l);
    case _ =>
  }

  lemma {:induction false} AcquireIndex(s: State, l: Lock)
    requires s.ready != []
    ensures AcquireLoop(s, l).index == s.index
    decreases |s.ready|, 0
  {
    AcquireUnfold(s, l);
    hide Dispatch, AcquireLoop;
    if Owner(s, l).Some? && |s.ready| > 1 { DispatchIndex(Suspend(s, l.queue, InAcquire(l))); }
  }

  /** thread_exit(THREAD_ANY) destroys the last ready thread; alone, the caller goes on. */
  lemma ExitAnyTakesLast(s: State)
    requires s.ready != []
    ensures var s', n := Next(s, ExitAny), |s.ready| - 1;
            && Stayed(s, s', if n == 0 then s.ready else s.ready[..n])
            && s'.index == (if n == 0 then s.index else s.index - {s.ready[n].id}) && s'.waiting == s.waiting
  {
    hide Dispatches;
    var n := |s.ready| - 1;
    WithoutParts(s.ready, n);
    assert s.ready[..n] + [] == s.ready[..n];
    EnabledStays(s, if n == 0 then s else Removed(s, n));
  }

  /** thread_exit(tid) destroys exactly the ready thread with that id; the others stay in
      order. */
  lemma ExitIdTakes(s: State, k: nat)
    requires Inv(s) && 0 < k < |s.ready|
    ensures var s' := Next(s, ExitId(s.ready[k].id));
            && Stayed(s, s', s.ready[..k] + s.ready[k + 1..])
            && s'.index == s.index - {s.ready[k].id} && s'.waiting == s.waiting
  {
    FindIs(s, k);
    hide Inv, Dispatches, Find;
    WithoutParts(s.ready, k);
    EnabledStays(s, Removed(s, k));
  }

  // ---- thread_sleep ----

  /** No thread that may be given the processor can go to sleep in q. */
  ghost predicate Elsewhere(s: State, q: WaitQueue) {
    forall t | t in s.ready :: NotFor(TcbOf(s, t), q)
  }

  predicate NotFor(tcb: Tcb, q: WaitQueue) {
    match tcb.context
    case InAcquire(l) => l.queue != q
    case InCvWait(l) => l.queue != q
    case _ => true
  }

  lemma {:induction false} DispatchElsewhere(s: State, q: WaitQueue)
    requires s.ready != [] && Distinct(s.ready) && Elsewhere(s, q)
    ensures Waiting(Dispatch(s), q) == Waiting(s, q)
    decreases |s.ready|, 1
  {
    DispatchUnfold(s);
    hide Dispatch, AcquireLoop;
    var on := Resumed(Happens(s, Dispatched(s.ready[0])));
    assert s.ready[0] in s.ready;
    match TcbOf(s, s.ready[0]).context
    case InAcquire(l) => AcquireElsewhere(on, l, q);
    case InCvWait(l) => AcquireElsewhere(on, l, q);
    case _ =>
  }

  lemma {:induction false} AcquireElsewhere(s: State, l: Lock, q: WaitQueue)
    requires s.ready != [] && Distinct(s.ready) && Elsewhere(s, q) && l.queue != q
    ensures Waiting(AcquireLoop(s, l), q) == Waiting(s, q)
    decreases |s.ready|, 0
  {
    AcquireUnfold(s, l);
    hide Dispatch, AcquireLoop;
    HeadLeaves(s.ready);
    if Owner(s, l).Some? && |s.ready| > 1 { DispatchElsewhere(Suspend(s, l.queue, InAcquire(l)), q); }
  }

  lemma OwnQueueElsewhere(s: State, q: WaitQueue)
    requires Inv(s) && OwnWaitQueue(s, q)
    ensures Elsewhere(s, q) && Distinct(s.ready)
  {
    hide OnePlace, IndexOk, Parked, NoneWaitsForFree, Exclusive, InOrderOfSleep;
    ReadyDistinct(s);
    forall t | t in s.ready ensures NotFor(TcbOf(s, t), q) {
      assert WantsLock(Control(s.tcb, t), s.locks);
    }
  }

  /** thread_sleep with another thread ready: the next thread runs, and the caller sleeps
      last in the queue; alone, it goes on. */
  lemma SleepsLast(s: State, q: WaitQueue)
    requires Inv(s) && Allowed(s, SleepOn(q))
    ensures var s', c := Next(s, SleepOn(q)), s.ready[0];
            if |s.ready| == 1 then Stayed(s, s', s.ready) && s'.waiting == s.waiting
            else
              && Switched(s, s', s.ready[1..]) && s.log + [Slept(c, q)] <= s'.log
              && Waiters(s'.log, q) == Waiters(s.log, q) + [c]
  {
    NextKeeps(s, SleepOn(q));
    SleepersOf(s, q);
    OwnQueueElsewhere(s, q);
    hide Inv, Dispatch, Dispatches, Waiters, Distinct;
    EnabledStays(s, s);
    if |s.ready| > 1 {
      var asleep := Suspend(s, q, InSleep);
      OneDispatch(s.log, Slept(s.ready[0], q));
      DispatchSwitches(s, asleep);
      DispatchLog(asleep);
      LeavesElsewhere(s, q);
      DispatchElsewhere(asleep, q);
      SleepersOf(Dispatch(asleep), q);
    }
  }

  lemma LeavesElsewhere(s: State, q: WaitQueue)
    requires s.ready != [] && Distinct(s.ready) && Elsewhere(s, q)
    ensures var asleep := Suspend(s, q, InSleep);
            Distinct(asleep.ready) && Elsewhere(asleep, q) && Waiting(asleep, q) == Waiting(s, q) + [s.ready[0]]
  {
    HeadLeaves(s.ready);
  }

  // ---- thread_wakeup ----

  /** thread_wakeup: the thread that has slept longest, or all in the order in which they
      went to sleep, go to the end of the ready queue; nobody else runs. */
  lemma WakeupWakes(s: State, q: WaitQueue, everyone: bool)
    requires Inv(s) && Allowed(s, Wakeup(q, everyone))
    ensures var s', w := Next(s, Wakeup(q, everyone)), Waiters(s.log, q);
            var woken := if everyone then w else if w == [] then [] else w[..1];
            && Stayed(s, s', s.ready + woken) && Waiters(s'.log, q) == w[|woken|..] && s'.locks == s.locks
            && forall p :: p != q && p in s.waiting ==> p in s'.waiting && s'.waiting[p] == s.waiting[p]
  {
    NextKeeps(s, Wakeup(q, everyone));
    SleepersOf(s, q);
    WakeStepShape(s, q, everyone);
    WakeStepDispatches(s, q, everyone);
    hide Inv, Dispatches, Waiters, WakeStep;
    EnabledStays(s, WakeStep(s, q, everyone));
    SleepersOf(Next(s, Wakeup(q, everyone)), q);
  }

  lemma {:induction false} WakenAllShape(s: State, q: WaitQueue)
    ensures var s' := WakenAll(s, q);
            && s'.ready == s.ready + Waiting(s, q) && Waiting(s', q) == [] && SameButQueue(s, s', q)
    decreases |Waiting(s, q)|
  {
    WakenAllStep(s, q);
    hide WakenAll, Waken;
    if Waiting(s, q) != [] {
      WakenShape(s, q);
      WakenKnown(s, q);
      WakenAllShape(Waken(s, q), q);
    }
  }

  lemma WakenKnown(s: State, q: WaitQueue)
    requires Waiting(s, q) != []
    ensures |Waiting(Waken(s, q), q)| < |Waiting(s, q)|
  {}

  lemma WakeStepShape(s: State, q: WaitQueue, everyone: bool)
    ensures var s', w := WakeStep(s, q, everyone), Waiting(s, q);
            var woken := if everyone then w else if w == [] then [] else w[..1];
            && s'.ready == s.ready + woken && Waiting(s', q) == w[|woken|..] && SameButQueue(s, s', q)
  {
    WakenAllShape(s, q);
    if Waiting(s, q) != [] { WakenShape(s, q); }
    hide WakenAll, Waken;
  }

  // ---- locks and condition variables ----

  /** lock_acquire: a free lock is taken at once, and nobody else runs; otherwise the next
      thread runs, and the caller has gone to sleep last in the queue of the lock. */
  lemma AcquireSwitches(s: State, l: Lock)
    requires Inv(s) && l in s.locks
    ensures var s', c := Next(s, Acquire(l)), s.ready[0];
            if Owner(s, l).None? then
              Stayed(s, s', s.ready) && s'.locks == s.locks[l := Some(c)] && s'.waiting == s.waiting
            else if |s.ready| == 1 then s' == s.(hung := true)
            else
              && Switched(s, s', s.ready[1..]) && s.log + [Slept(c, l.queue)] <= s'.log
              && Waiters(s.log + [Slept(c, l.queue)], l.queue) == Waiters(s.log, l.queue) + [c]
  {
    hide Inv, Dispatch, AcquireLoop, Dispatches, Waiters;
    ReadyDistinct(s);
    var c := s.ready[0];
    AcquireUnfold(s, l);
    NextIs(s, l.queue, l);
    OneDispatch(s.log, Took(l, c));
    OneDispatch(s.log, Slept(c, l.queue));
    LogEvent(s.log, Slept(c, l.queue));
    EnabledStays(s, s.(locks := s.locks[l := Some(c)], log := s.log + [Took(l, c)]));
    if Owner(s, l).Some? && |s.ready| > 1 {
      var asleep := Suspend(s, l.queue, InAcquire(l));
      DispatchSwitches(s, asleep);
      DispatchLog(asleep);
    }
  }

  /** lock_release: the lock is free, and all that slept for it are ready, in order, behind
      the others; nobody else runs. */
  lemma ReleaseWakes(s: State, l: Lock)
    requires Inv(s) && Allowed(s, Release(l))
    ensures var s', w := Next(s, Release(l)), Waiters(s.log, l.queue);
            && Stayed(s, s', s.ready + w) && Waiters(s'.log, l.queue) == []
            && s'.locks.Keys == s.locks.Keys && Owner(s', l) == None
            && forall m :: m in s.locks && m != l ==> s'.locks[m] == s.locks[m]
  {
    NextKeeps(s, Release(l));
    LetGoShape(s, l);
    hide Inv, Dispatches, Waiters, LetGo;
    EnabledStays(s, LetGo(s, l));
    SleepersOf(Next(s, Release(l)), l.queue);
  }

  lemma LetGoShape(s: State, l: Lock)
    requires Inv(s) && s.ready != [] && Owner(s, l).Some?
    ensures var s' := LetGo(s, l);
            && s'.ready == s.ready + Waiters(s.log, l.queue) && Dispatches(s'.log) == Dispatches(s.log)
            && l.queue in s'.waiting && s'.waiting[l.queue] == [] && s'.locks == s.locks[l := None] && l in s.locks
  {
    ReleasedQueue(s, l);
    SleepersOf(s, l.queue);
    LetGoDispatches(s, l);
    WakenAllShape(s.(locks := s.locks[l := None], log := s.log + [Released(l, s.ready[0])]), l.queue);
    hide Inv, Dispatches, Waiters, WakenAll;
  }

  lemma ReleasedQueue(s: State, l: Lock)
    requires Inv(s) && Owner(s, l).Some?
    ensures l in s.locks && l.queue in s.waiting
  {
    hide OnePlace, IndexOk, Parked, NoneWaitsForFree, Exclusive, InOrderOfSleep;
  }

  /** cv_wait by the holder: those that slept for the lock are ready behind the others, and
      of these the next one runs. */
  lemma CvWaitSwitches(s: State, q: WaitQueue, l: Lock)
    requires Inv(s) && Owner(s, l) == Some(s.ready[0])
    ensures var order := s.ready[1..] + Waiters(s.log, l.queue);
            order != [] ==> Switched(s, Next(s, CvWait(q, l)), order)
  {
    hide Inv, Dispatches, Waiters, LetGo, Next, Dispatch, Suspend;
    ReadyDistinct(s);
    LetGoShape(s, l);
    NextIs(s, q, l);
    var free := LetGo(s, l);
    var asleep := Suspend(free, q, InCvWait(l));
    SuspendLeaves(free);
    OneDispatch(free.log, Slept(free.ready[0], q));
    if |free.ready| > 1 { DispatchSwitches(s, asleep); }
  }

  /** cv_wait, cv_signal and cv_broadcast by a thread that does not hold the lock do
      nothing. */
  lemma NothingWithoutLock(s: State, q: WaitQueue, l: Lock)
    requires s.ready != [] && Owner(s, l) != Some(s.ready[0])
    ensures forall step :: step in {CvWait(q, l), CvSignal(q, l), CvBroadcast(q, l)} ==>
              Next(s, step) == Happens(s, Enabled)
  {
    NextIs(s, q, l);
    hide Next, WakeStep, AcquireLoop, LetGo;
  }
}
