/** Who runs when: the order of switches, and progress. */
module ThreadProgress {
  import opened Options
  import opened Sequences
  import opened Threads
  import opened ThreadInvariants

  /** The threads that were given the processor, in order. */
  function Dispatches(log: seq<Event>): seq<Thread> {
    if log == [] then []
    else
      var before := Dispatches(log[..|log| - 1]);
      if log[|log| - 1].Dispatched? then before + [log[|log| - 1].t] else before
  }

  lemma OneDispatch(log: seq<Event>, e: Event)
    ensures Dispatches(log + [e]) == if e.Dispatched? then Dispatches(log) + [e.t] else Dispatches(log)
  {
    assert (log + [e])[..|log|] == log;
  }

  // ---- the order of one switch ----

  /** The processor has gone down the ready queue from position `from`; the threads it
      passed are no longer there. */
  ghost predicate WentDown(s: State, s': State, from: nat) {
    var j := |s.ready| - |s'.ready|;
    && 0 <= j < |s.ready| && from <= j + 1 && s'.ready == s.ready[j..]
    && Dispatches(s'.log) == Dispatches(s.log) + s.ready[from..j + 1]
  }

  lemma SliceHead<T>(q: seq<T>, n: nat)
    requires 0 < n <= |q|
    ensures q[0..n] == [q[0]] + q[1..n] && q[0..] == q
  {}

  lemma ContinuedDown(s: State, on: State, s': State)
    requires s.ready != [] && on.ready == s.ready && on.log == s.log + [Dispatched(s.ready[0])] && WentDown(on, s', 1)
    ensures WentDown(s, s', 0)
  {
    hide Dispatches;
    OneDispatch(s.log, Dispatched(s.ready[0]));
    var c, j := s.ready[0], |s.ready| - |s'.ready|;
    SliceHead(s.ready, j + 1);
    assert Dispatches(s.log) + ([c] + s.ready[1..j + 1]) == (Dispatches(s.log) + [c]) + s.ready[1..j + 1];
  }

  lemma {:induction false} DispatchOrder(s: State)
    requires s.ready != []
    ensures WentDown(s, Dispatch(s), 0)
    decreases |s.ready|, 1
  {
    var c := s.ready[0];
    var on := Happens(s, Dispatched(c));
    DispatchUnfold(s);
    hide Dispatch, AcquireLoop, WentDown, Dispatches;
    match TcbOf(s, c).context
    case InAcquire(l) =>
      AcquireOrder(Resumed(on), l);
      ContinuedDown(s, Resumed(on), AcquireLoop(Resumed(on), l));
    case InCvWait(l) =>
      AcquireOrder(Resumed(on), l);
      ContinuedDown(s, Resumed(on), AcquireLoop(Resumed(on), l));
    case _ => StartedDown(s, Dispatch(s));
  }

  lemma StartedDown(s: State, s': State)
    requires s.ready != [] && s'.ready == s.ready && s'.log == s.log + [Dispatched(s.ready[0])] + [Enabled]
    ensures WentDown(s, s', 0)
  {
    OneDispatch(s.log, Dispatched(s.ready[0]));
    OneDispatch(s.log + [Dispatched(s.ready[0])], Enabled);
    assert s.ready[0..1] == [s.ready[0]] && s.ready[0..] == s.ready;
  }

  lemma {:induction false} AcquireOrder(s: State, l: Lock)
    requires s.ready != []
    ensures WentDown(s, AcquireLoop(s, l), 1)
    decreases |s.ready|, 0
  {
    var c := s.ready[0];
    AcquireUnfold(s, l);
    hide Dispatch, AcquireLoop;
    assert s.ready[1..1] == [] && s.ready[0..] == s.ready;
    if Owner(s, l).None? {
      OneDispatch(s.log, Took(l, c));
      OneDispatch(s.log + [Took(l, c)], Enabled);
    } else if |s.ready| > 1 {
      var asleep := Suspend(s, l.queue, InAcquire(l));
      DispatchOrder(asleep);
      DispatchedAfter(s, asleep, Dispatch(asleep), Slept(c, l.queue));
    }
  }

  /** After the head has left the ready queue and another thread was dispatched. */
  lemma DispatchedAfter(s: State, left: State, s': State, e: Event)
    requires && |s.ready| > 1 && left.ready == s.ready[1..] && left.log == s.log + [e] && !e.Dispatched?
             && WentDown(left, s', 0)
    ensures WentDown(s, s', 1)
  {
    OneDispatch(s.log, e);
    var k := |left.ready| - |s'.ready|;
    assert s.ready[1..][k..] == s.ready[k + 1..] && s.ready[1..][0..k + 1] == s.ready[1..k + 2];
  }

  // ---- progress ----

  /** Either w has been given the processor since s, or it has come nearer to the head by
      every switch. */
  ghost predicate Nearer(s: State, s': State, w: Thread, p: nat) {
    var d, d' := Dispatches(s.log), Dispatches(s'.log);
    && |d| <= |d'| && d'[..|d|] == d
    && (w in d'[|d|..] || exists p' :: 1 <= p' < |s'.ready| && s'.ready[p'] == w && p' + |d'| - |d| <= p)
  }

  /** A step after which nobody has been moved ahead of w, and that does not destroy w:
      every switch is a yield to any thread, going to sleep, or leaving. */
  predicate Fair(s: State, step: Step, w: Thread)
    requires s.ready != []
  {
    match step
    case YieldTo(_) => false
    case ExitAny => s.ready[|s.ready| - 1] != w
    case ExitId(id) => id != w.id
    case _ => true
  }

  /** A switch down a queue in which w stands at position p. */
  lemma DownNearer(s: State, left: State, s': State, from: nat, w: Thread, p: nat)
    requires Dispatches(left.log) == Dispatches(s.log) && WentDown(left, s', from) && from <= 1
    requires && (if from == 0 then p - 1 else p) < |left.ready| && p >= 1
             && left.ready[if from == 0 then p - 1 else p] == w
    ensures Nearer(s, s', w, p)
  {
    var d, d' := Dispatches(s.log), Dispatches(s'.log);
    var j, at := |left.ready| - |s'.ready|, if from == 0 then p - 1 else p;
    assert d' == d + left.ready[from..j + 1];
    if at <= j {
      assert d'[|d| + at - from] == w;
    } else {
      assert s'.ready[at - j] == w;
    }
  }

  /** Steps that switch to nobody. */
  lemma StaysNearer(s: State, s': State, w: Thread, p: nat, p': nat)
    requires Dispatches(s'.log) == Dispatches(s.log) && 1 <= p' <= p && p' < |s'.ready| && s'.ready[p'] == w
    ensures Nearer(s, s', w, p)
  {}

  lemma {:induction false} WakenAllDispatches(s: State, q: WaitQueue)
    ensures Dispatches(WakenAll(s, q).log) == Dispatches(s.log) && s.ready <= WakenAll(s, q).ready
    decreases |Waiting(s, q)|
  {
    WakenAllStep(s, q);
    hide WakenAll;
    if Waiting(s, q) != [] {
      OneDispatch(s.log, Woke(Waiting(s, q)[0], q));
      hide Dispatches;
      WakenAllDispatches(Waken(s, q), q);
    }
  }

  lemma WakeStepDispatches(s: State, q: WaitQueue, everyone: bool)
    ensures Dispatches(WakeStep(s, q, everyone).log) == Dispatches(s.log) && s.ready <= WakeStep(s, q, everyone).ready
  {
    WakenAllDispatches(s, q);
    if Waiting(s, q) != [] { OneDispatch(s.log, Woke(Waiting(s, q)[0], q)); }
    hide WakenAll, Dispatches;
  }

  lemma LetGoDispatches(s: State, l: Lock)
    requires s.ready != []
    ensures Dispatches(LetGo(s, l).log) == Dispatches(s.log) && s.ready <= LetGo(s, l).ready
  {
    OneDispatch(s.log, Released(l, s.ready[0]));
    hide WakenAll, Dispatches;
    WakenAllDispatches(s.(locks := s.locks[l := None], log := s.log + [Released(l, s.ready[0])]), l.queue);
  }

  lemma CvWaitNearer(s: State, q: WaitQueue, l: Lock, w: Thread, p: nat)
    requires 1 <= p < |s.ready| && s.ready[p] == w
    ensures Nearer(s, CvWaitStep(s, q, l), w, p)
  {
    hide Nearer, Dispatches, LetGo, Dispatch, AcquireLoop;
    if Owner(s, l) != Some(s.ready[0]) {
      OneDispatch(s.log, Enabled);
      StaysNearer(s, Happens(s, Enabled), w, p, p);
    } else {
      var free := LetGo(s, l);
      LetGoDispatches(s, l);
      var asleep := Suspend(free, q, InCvWait(l));
      OneDispatch(free.log, Slept(free.ready[0], q));
      DispatchOrder(asleep);
      DownNearer(s, asleep, Dispatch(asleep), 0, w, p);
    }
  }

  lemma QuietNearer(s: State, s': State, w: Thread, p: nat)
    requires 1 <= p < |s.ready| && s.ready[p] == w && s.ready <= s'.ready && Dispatches(s'.log) == Dispatches(s.log)
    ensures Nearer(s, Happens(s', Enabled), w, p)
  {
    OneDispatch(s'.log, Enabled);
    hide Dispatches;
    StaysNearer(s, Happens(s', Enabled), w, p, p);
  }

  lemma RemovedNearer(s: State, k: nat, w: Thread, p: nat)
    requires 1 <= p < |s.ready| && s.ready[p] == w && 0 < k < |s.ready| && k != p
    ensures Nearer(s, Happens(Removed(s, k), Enabled), w, p)
  {
    OneDispatch(s.log, Enabled);
    hide Dispatches;
    StaysNearer(s, Happens(Removed(s, k), Enabled), w, p, if p < k then p else p - 1);
  }

  /** The head leaves, and everybody moves up. */
  lemma LeftNearer(s: State, left: State, w: Thread, p: nat)
    requires 1 <= p <= |left.ready| && left.ready[p - 1] == w && Dispatches(left.log) == Dispatches(s.log)
    ensures Nearer(s, Dispatch(left), w, p)
  {
    DispatchOrder(left);
    hide Dispatch, Dispatches;
    DownNearer(s, left, Dispatch(left), 0, w, p);
  }

  lemma WokenNearer(s: State, q: WaitQueue, everyone: bool, acts: bool, w: Thread, p: nat)
    requires 1 <= p < |s.ready| && s.ready[p] == w
    ensures Nearer(s, Happens(if acts then WakeStep(s, q, everyone) else s, Enabled), w, p)
  {
    WakeStepDispatches(s, q, everyone);
    hide WakeStep, Dispatches;
    QuietNearer(s, if acts then WakeStep(s, q, everyone) else s, w, p);
  }

  lemma ExitNearer(s: State, id: int, w: Thread, p: nat)
    requires 1 <= p < |s.ready| && s.ready[p] == w && id != w.id && id != s.ready[0].id
    ensures Nearer(s, Next(s, ExitId(id)), w, p)
  {
    var k := Find(s.ready, id);
    if k < |s.ready| { RemovedNearer(s, k, w, p); } else { QuietNearer(s, s, w, p); }
  }

  lemma SuspendLeaves(s: State)
    requires s.ready != []
    ensures forall q, context ::
              && Suspend(s, q, context).ready == s.ready[1..]
              && Suspend(s, q, context).log == s.log + [Slept(s.ready[0], q)]
  {}

  /** One step brings w nearer by each of its switches. */
  lemma StepNearer(s: State, step: Step, w: Thread, p: nat)
    requires Inv(s) && 1 <= p < |s.ready| && s.ready[p] == w && Allowed(s, step) && Fair(s, step, w)
    ensures Nearer(s, Next(s, step), w, p)
  {
    hide Inv, Nearer, Dispatches, LetGo, Dispatch, AcquireLoop, WakeStep, CvWaitStep, WentDown, Find, Removed,
         OwnWaitQueue, UnusedQueue, UnusedLock, Suspend, Distinct;
    ReadyDistinct(s);
    SuspendLeaves(s);
    match step
    case YieldAny =>
      LeftNearer(s, SetTcb(s.(ready := s.ready[1..] + [s.ready[0]]), s.ready[0], Tcb(Idle, InYield)), w, p);
    case ExitSelf =>
      LeftNearer(s, s.(ready := s.ready[1..], index := s.index - {s.ready[0].id}), w, p);
    case ExitAny => RemovedNearer(s, |s.ready| - 1, w, p);
    case ExitId(id) => ExitNearer(s, id, w, p);
    case SleepOn(q) =>
      OneDispatch(s.log, Slept(s.ready[0], q));
      LeftNearer(s, Suspend(s, q, InSleep), w, p);
    case Acquire(l) =>
      AcquireOrder(s, l);
      DownNearer(s, s, AcquireLoop(s, l), 1, w, p);
    case Release(l) =>
      LetGoDispatches(s, l);
      QuietNearer(s, LetGo(s, l), w, p);
    case Wakeup(q, everyone) => WokenNearer(s, q, everyone, true, w, p);
    case CvWait(q, l) => CvWaitNearer(s, q, l, w, p);
    case CvSignal(q, l) => WokenNearer(s, q, false, Owner(s, l) == Some(s.ready[0]), w, p);
    case CvBroadcast(q, l) => WokenNearer(s, q, true, Owner(s, l) == Some(s.ready[0]), w, p);
    case Create(t) =>
      QuietNearer(s, SetTcb(s.(ready := s.ready + [t], index := s.index[t.id := t]), t, Tcb(New, Fresh)), w, p);
    case NewQueue(q) => StaysNearer(s, Next(s, step), w, p, p);
    case NewLock(l) => QuietNearer(s, s.(waiting := s.waiting[l.queue := []], locks := s.locks[l := None]), w, p);
  }

  lemma NearerThen(s: State, s1: State, s2: State, w: Thread, p: nat, p1: nat)
    requires Nearer(s, s1, w, p) && w !in Dispatches(s1.log)[|Dispatches(s.log)|..]
    requires && 1 <= p1 < |s1.ready| && s1.ready[p1] == w && p1 + |Dispatches(s1.log)| - |Dispatches(s.log)| <= p
             && Nearer(s1, s2, w, p1)
    ensures Nearer(s, s2, w, p)
  {
    var d, d1, d2 := Dispatches(s.log), Dispatches(s1.log), Dispatches(s2.log);
    hide Dispatches;
    assert d2[..|d|] == d1[..|d|];
    if w in d2[|d1|..] {
      var i :| |d1| <= i < |d2| && d2[i] == w;
      assert d2[|d|..][i - |d|] == w;
    }
  }

  lemma RanThen(s: State, s1: State, s2: State, w: Thread, p: nat, p1: nat)
    requires && |Dispatches(s.log)| <= |Dispatches(s1.log)|
             && Dispatches(s1.log)[..|Dispatches(s.log)|] == Dispatches(s.log)
    requires w in Dispatches(s1.log)[|Dispatches(s.log)|..] && Dispatches(s1.log) <= Dispatches(s2.log)
    ensures Nearer(s, s2, w, p)
  {
    var d, d1, d2 := Dispatches(s.log), Dispatches(s1.log), Dispatches(s2.log);
    hide Dispatches;
    var i :| |d| <= i < |d1| && d1[i] == w;
    assert d2[|d|..][i - |d|] == w && d2[..|d|] == d1[..|d|];
  }

  lemma LeftGrows(s: State, left: State)
    requires left.ready != [] && Dispatches(left.log) == Dispatches(s.log)
    ensures Dispatches(s.log) <= Dispatches(Dispatch(left).log)
  {
    DispatchOrder(left);
    hide Dispatch, Dispatches;
  }

  lemma CvWaitGrows(s: State, q: WaitQueue, l: Lock)
    requires s.ready != []
    ensures Dispatches(s.log) <= Dispatches(CvWaitStep(s, q, l).log)
  {
    hide Dispatches, LetGo, Dispatch, AcquireLoop;
    if Owner(s, l) != Some(s.ready[0]) {
      OneDispatch(s.log, Enabled);
    } else {
      var free := LetGo(s, l);
      LetGoDispatches(s, l);
      if |free.ready| == 1 {
        AcquireOrder(free, l);
      } else {
        OneDispatch(free.log, Slept(free.ready[0], q));
        LeftGrows(s, Suspend(free, q, InCvWait(l)));
      }
    }
  }

  /** What has been dispatched stays in the log. */
  lemma DispatchesGrow(s: State, step: Step)
    requires s.ready != [] && Allowed(s, step)
    ensures Dispatches(s.log) <= Dispatches(Next(s, step).log)
  {
    OneDispatch(s.log, Enabled);
    hide Dispatches, LetGo, Dispatch, AcquireLoop, WakeStep, CvWaitStep, Find, Removed, MovedToTop;
    match step
    case YieldAny =>
      if |s.ready| > 1 { LeftGrows(s,
                                   SetTcb(s.(ready := s.ready[1..] + [s.ready[0]]), s.ready[0],
                                          Tcb(Idle, InYield))); }
    case YieldTo(id) =>
      var k := Find(s.ready, id);
      if 0 < k < |s.ready| {
        LeftGrows(s,
                  SetTcb(s.(ready := MovedToTop(s.ready[1..], k - 1) + [s.ready[0]]), s.ready[0],
                         Tcb(Idle, InYield)));
      }
    case ExitSelf => LeftGrows(s, s.(ready := s.ready[1..], index := s.index - {s.ready[0].id}));
    case ExitAny => RemovedLog(s, |s.ready| - 1);
    case ExitId(id) => if Find(s.ready, id) < |s.ready| { RemovedLog(s, Find(s.ready, id)); }
    case SleepOn(q) =>
      if |s.ready| > 1 {
        OneDispatch(s.log, Slept(s.ready[0], q));
        LeftGrows(s, Suspend(s, q, InSleep));
      }
    case Acquire(l) => AcquireOrder(s, l);
    case Release(l) =>
      LetGoDispatches(s, l);
      OneDispatch(LetGo(s, l).log, Enabled);
    case Wakeup(q, everyone) => WokenGrows(s, q, everyone);
    case CvWait(q, l) => CvWaitGrows(s, q, l);
    case CvSignal(q, l) => WokenGrows(s, q, false);
    case CvBroadcast(q, l) => WokenGrows(s, q, true);
    case _ =>
  }

  lemma RemovedLog(s: State, k: nat)
    requires k < |s.ready|
    ensures Removed(s, k).log == s.log
  {}

  lemma WokenGrows(s: State, q: WaitQueue, everyone: bool)
    ensures Dispatches(Happens(WakeStep(s, q, everyone), Enabled).log) == Dispatches(s.log)
  {
    WakeStepDispatches(s, q, everyone);
    OneDispatch(WakeStep(s, q, everyone).log, Enabled);
  }

  /** In a run of fair steps, a thread that is ready at position p has been given the
      processor, or has come nearer by every switch. */
  lemma {:induction false} RunNearer(states: seq<State>, steps: seq<Step>, w: Thread, p: nat, n: nat)
    requires IsRun(states, steps) && Inv(states[0]) && n < |states|
    requires 1 <= p < |states[0].ready| && states[0].ready[p] == w
    requires forall k :: 0 <= k < |steps| ==> Fair(states[k], steps[k], w)
    ensures Nearer(states[0], states[n], w, p)
  {
    hide Inv, Dispatches, Allowed, Next;
    if n == 0 {
      assert states[0].ready[p] == w;
    } else {
      RunNearer(states, steps, w, p, n - 1);
      RunKeeps(states, steps, n - 1);
      var s, s1, step := states[0], states[n - 1], steps[n - 1];
      var d, d1 := Dispatches(s.log), Dispatches(s1.log);
      if w in d1[|d|..] {
        DispatchesGrow(s1, step);
        RanThen(s, s1, states[n], w, p, p);
      } else {
        var p1 :| 1 <= p1 < |s1.ready| && s1.ready[p1] == w && p1 + |d1| - |d| <= p;
        StepNearer(s1, step, w, p1);
        NearerThen(s, s1, states[n], w, p, p1);
      }
    }
  }

  /** A ready thread at position p runs after at most p switches. */
  lemma RunsAfter(states: seq<State>, steps: seq<Step>, w: Thread, p: nat, n: nat)
    requires IsRun(states, steps) && Inv(states[0]) && n < |states|
    requires 1 <= p < |states[0].ready| && states[0].ready[p] == w
    requires forall k :: 0 <= k < |steps| ==> Fair(states[k], steps[k], w)
    ensures var before, after := Dispatches(states[0].log), Dispatches(states[n].log);
            |before| <= |after| && (|after| - |before| >= p ==> w in after[|before|..])
  {
    RunNearer(states, steps, w, p, n);
  }
}
