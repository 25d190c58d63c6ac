/** threads/thread.c: the calls of the package. Each is proved to make one step of the
    transition system; what it returns after a switch is what the caller sees when it
    runs again. */
module ThreadCalls {
  import opened Options
  import opened Sequences
  import opened ThreadQueue
  import opened Threads
  import opened ThreadInvariants
  import opened ThreadScheduler

  /** The scheduler between two calls: its state is one that runs reach. */
  ghost predicate Ready(s: Scheduler)
    reads s, s.all, s.nodes, s.index, s.state.tcb.Keys, s.state.locks.Keys
  {
    s.Valid() && s.interrupts && Inv(s.state) && !s.state.hung
  }

  /** A call is over: the step has been made, and interrupts are on. */
  ghost predicate Made(s: Scheduler, next: State)
    reads s, s.all, s.nodes, s.index, s.state.tcb.Keys, s.state.locks.Keys
  {
    && s.Valid() && s.state == next && (s.state.hung || s.interrupts)
  }

  // ---- searching the ready queue ----

  lemma FindFirst(q: seq<Thread>, id: int, k: nat)
    requires k <= |q| && (k < |q| ==> q[k].id == id) && forall j :: 0 <= j < k ==> q[j].id != id
    ensures Find(q, id) == k
  {}

  /** The linker of the thread with this id, the one before it, and its position. */
  method FindLinker(s: Scheduler, id: int) returns (prior: Linker?<Thread>, current: Linker?<Thread>, position: nat)
    requires s.Valid()
    ensures position == Find(s.state.ready, id) && (current == null <==> position == |s.state.ready|)
    ensures s.ready.Valid() && s.ready.size == |s.state.ready|
    ensures current != null ==> current == s.ready.linkers[position]
    ensures current != null && 0 < position ==> prior == s.ready.linkers[position - 1]
  {
    hide ThreadsAgree, LocksAgree, IndexAgrees;
    assert s.ready.Valid() && s.ready.Contents() == s.state.ready && s.ready.size == |s.state.ready|;
    hide Apart, Scheduler.Valid;
    prior, current, position := null, s.ready.start, 0;
    while current != null
      invariant position <= s.ready.size
      invariant current == if position < s.ready.size then s.ready.linkers[position] else null
      invariant 0 < position ==> prior == s.ready.linkers[position - 1]
      invariant forall j :: 0 <= j < position ==> s.state.ready[j].id != id
      decreases s.ready.size - position
    {
      assert s.state.ready[position] == current.pointer;
      if current.pointer.id == id {
        break;
      }
      assert current.next == After(s.ready.linkers, position);
      prior := current;
      current := current.next;
      position := position + 1;
    }
    FindFirst(s.state.ready, id, position);
  }

  // ---- thread_yield ----

  lemma ReadyHead(s: State)
    requires Inv(s)
    ensures s.ready != [] && s.ready[0] in s.tcb && Distinct(s.ready)
  {
    assert s.ready[0] in s.ready;
  }

  /** The head yields; the ready queue has been reordered. */
  lemma YieldedCore(s: State, order: seq<Thread>)
    requires Inv(s) && s.ready != [] && Distinct(order) && forall t :: t in order <==> t in s.ready
    ensures order != [] && Core(SetTcb(s.(ready := order), s.ready[0], Tcb(Idle, InYield)), 0, {})
  {
    YieldKeeps(s, order);
    hide Core;
  }

  /** The two orders that thread_yield makes, as its queue operations make them. */
  lemma YieldShape(s: State, k: nat)
    requires Inv(s) && 0 < k < |s.ready|
    ensures var c, idle := s.ready[0], SetTcb(s, s.ready[0], Tcb(Idle, InYield));
            var any := idle.(ready := s.ready[1..] + [c]);
            var some := idle.(ready := MovedToTop(s.ready[1..], k - 1) + [c]);
            && c in s.tcb && idle.ready == s.ready && any.ready != [] && some.ready != []
            && Core(any, 0, {}) && Core(some, 0, {})
            && any == SetTcb(s.(ready := any.ready), c, Tcb(Idle, InYield))
            && some == SetTcb(s.(ready := some.ready), c, Tcb(Idle, InYield))
            && any.tcb.Keys == s.tcb.Keys && some.tcb.Keys == s.tcb.Keys && any.locks == some.locks == s.locks
            && any.hung == some.hung == s.hung
  {
    ReadyHead(s);
    YieldOrders(s.ready, k);
    hide Core, Inv, MovedToTop, Distinct;
    YieldedCore(s, s.ready[1..] + [s.ready[0]]);
    YieldedCore(s, MovedToTop(s.ready[1..], k - 1) + [s.ready[0]]);
  }

  /** thread_yield(THREAD_ANY) with another thread ready; a timer interrupt does the same. */
  method SwitchAny(s: Scheduler)
    requires s.Valid() && !s.interrupts && Inv(s.state) && !s.state.hung && |s.state.ready| > 1
    modifies s, s.all, s.nodes, s.state.tcb.Keys, s.state.locks.Keys
    ensures Made(s, Next(old(s.state), YieldAny))
    ensures s.all == old(s.all) && forall n :: n in s.nodes ==> n in old(s.nodes) || fresh(n)
  {
    hide Scheduler.Valid, Core, Inv, Dispatch, MovedToTop;
    ghost var was := s.state;
    YieldShape(was, 1);
    var current := s.Head();
    s.SetThread(current, Idle, InYield);
    s.PopReady();
    s.PushReady(current);
    hide SetTcb;
    s.Continue();
  }

  /** Queue_pop, Queue_movetop and Queue_push on the ready queue. */
  method Reorder(s: Scheduler, current: Thread, position: nat)
    requires s.Valid() && 0 < position < |s.state.ready|
    modifies s`state, s`nodes, s.all, s.nodes
    ensures && s.Valid()
            && s.state == old(s.state).(ready := MovedToTop(old(s.state).ready[1..], position - 1) + [current])
    ensures forall n :: n in s.nodes ==> n in old(s.nodes) || fresh(n)
  {
    hide Scheduler.Valid, MovedToTop;
    s.PopReady();
    s.MoveTopReady(position - 1);
    s.PushReady(current);
  }

  /** thread_yield to the thread at a position behind the head. */
  method SwitchTo(s: Scheduler, id: int, position: nat)
    requires s.Valid() && !s.interrupts && Inv(s.state) && !s.state.hung
    requires 0 < position < |s.state.ready| && Find(s.state.ready, id) == position
    modifies s, s.all, s.nodes, s.state.tcb.Keys, s.state.locks.Keys
    ensures Made(s, Next(old(s.state), YieldTo(id)))
    ensures s.all == old(s.all) && forall n :: n in s.nodes ==> n in old(s.nodes) || fresh(n)
  {
    hide Scheduler.Valid, Core, Inv, Dispatch, MovedToTop, Find;
    ghost var was := s.state;
    YieldShape(was, position);
    var current := s.Head();
    s.SetThread(current, Idle, InYield);
    Reorder(s, current, position);
    hide SetTcb;
    s.Continue();
  }

  /** thread_yield. Without a switch the result is THREAD_INVALID for an id that no ready
      thread has, THREAD_NONE when nobody else is ready, and else the caller's own id. After
      a switch, which the caller sees when it runs again, it is the id that was asked for,
      and for THREAD_ANY again the caller's own. */
  method ThreadYield(s: Scheduler, want: int) returns (ret: int)
    requires Ready(s)
    modifies s, s.all, s.nodes, s.state.tcb.Keys, s.state.locks.Keys
    ensures Made(s, Next(old(s.state), if want == THREAD_ANY then YieldAny else YieldTo(want)))
    ensures s.all == old(s.all) && forall n :: n in s.nodes ==> n in old(s.nodes) || fresh(n)
    ensures var q := old(s.state).ready;
            && (want < THREAD_SELF ==> ret == THREAD_INVALID)
            && (want == THREAD_ANY && |q| == 1 ==> ret == THREAD_NONE)
            && (want == THREAD_ANY && |q| > 1 ==> ret == q[0].id)
            && (want >= 0 && Find(q, want) < |q| ==> ret == want)
            && (q != [] && (want == THREAD_SELF || want == q[0].id) ==> ret == q[0].id)
            && (want >= 0 && Find(q, want) == |q| ==> ret == THREAD_INVALID)
  {
    hide Scheduler.Valid, Core, Inv, Dispatch, MovedToTop;
    InvHead(s.state);
    NotHead(s.state.ready, want);
    var enabled := s.InterruptsSet(false);
    var top := s.Head();
    var size := s.ReadySize();
    if want < THREAD_SELF {
      var off := s.InterruptsSet(enabled);
      return THREAD_INVALID;
    } else if want == THREAD_SELF {
      var off := s.InterruptsSet(enabled);
      return top.id;
    } else if want == THREAD_ANY {
      if size == 1 {
        var off := s.InterruptsSet(enabled);
        return THREAD_NONE;
      }
      SwitchAny(s);
      return top.id;
    }
    if want == top.id {
      var off := s.InterruptsSet(enabled);
      return want;
    }
    var prior, wanted, position := FindLinker(s, want);
    if wanted != null {
      SwitchTo(s, want, position);
      return want;
    }
    var off := s.InterruptsSet(enabled);
    return THREAD_INVALID;
  }

  lemma NotHead(q: seq<Thread>, id: int)
    requires q != []
    ensures Find(q, id) == 0 <==> q[0].id == id
    ensures id < 0 ==> Find(q, id) == |q|
  {}

  // ---- thread_exit ----

  /** Takes a thread other than the head out of the ready queue and the index. */
  method Destroy(s: Scheduler, prior: Linker<Thread>, current: Linker<Thread>, position: nat) returns (t: Thread)
    requires s.Valid() && 0 < position < |s.state.ready| == |s.ready.linkers|
    requires prior == s.ready.linkers[position - 1] && current == s.ready.linkers[position]
    requires s.state.ready[position].id < THREAD_MAX_THREADS
    modifies s`state, s.all, s.nodes, s.index
    ensures s.Valid() && s.state == Removed(old(s.state), position) && t == old(s.state).ready[position]
  {
    hide ThreadsAgree, LocksAgree, IndexAgrees;
    t := current.pointer;
    assert t == s.state.ready[position];
    s.UnlinkReady(prior, current, position);
    hide Scheduler.Valid;
    s.ClearIndex(t.id);
  }

  lemma IdsInRange(s: State)
    requires Inv(s)
    ensures forall t | t in s.ready :: t.id < THREAD_MAX_THREADS
  {
    hide OnePlace, Parked, LockQueues, NoneWaitsForFree, Exclusive, InOrderOfSleep;
  }

  /** The last linker of the ready queue and the one before it. */
  method LastLinker(s: Scheduler) returns (prior: Linker<Thread>, current: Linker<Thread>)
    requires s.Valid() && |s.state.ready| > 1
    ensures |s.ready.linkers| == |s.state.ready|
    ensures prior == s.ready.linkers[|s.state.ready| - 2] && current == s.ready.linkers[|s.state.ready| - 1]
  {
    hide ThreadsAgree, LocksAgree, IndexAgrees;
    assert s.ready.Valid() && s.ready.Contents() == s.state.ready && s.ready.size == |s.state.ready|;
    hide Apart, Scheduler.Valid;
    var first, next := s.ready.start, s.ready.start.next;
    assert next == After(s.ready.linkers, 0);
    prior, current := first, next;
    ghost var k := 1;
    while current.next != null
      invariant 1 <= k < s.ready.size && prior == s.ready.linkers[k - 1] && current == s.ready.linkers[k]
      decreases s.ready.size - k
    {
      assert current.next == After(s.ready.linkers, k);
      prior, current := current, current.next;
      k := k + 1;
    }
    assert current.next == After(s.ready.linkers, k);
  }

  /** thread_exit of the running thread, with another one ready. */
  method ExitSwitch(s: Scheduler)
    requires s.Valid() && !s.interrupts && Inv(s.state) && !s.state.hung && |s.state.ready| > 1
    modifies s, s.all, s.nodes, s.index, s.state.tcb.Keys, s.state.locks.Keys
    ensures Made(s, Next(old(s.state), ExitSelf))
    ensures s.all == old(s.all) && forall n :: n in s.nodes ==> n in old(s.nodes) || fresh(n)
  {
    hide Scheduler.Valid, Core, Inv, Dispatch;
    ExitKeeps(s.state);
    IdsInRange(s.state);
    var current := s.Head();
    s.ClearIndex(current.id);
    s.PushExited(current);
    s.PopReady();
    s.Continue();
  }

  /** thread_exit with an id other than the caller's. */
  method ExitOther(s: Scheduler, tid: int) returns (ret: int)
    requires s.Valid() && Inv(s.state) && tid >= 0 && (s.state.ready != [] ==> tid != s.state.ready[0].id)
    modifies s`state, s.all, s.nodes, s.index
    ensures s.Valid()
    ensures var k := Find(old(s.state).ready, tid);
            && s.state == (if k == |old(s.state).ready| then old(s.state) else Removed(old(s.state), k))
            && ret == if k == |old(s.state).ready| then THREAD_INVALID else tid
  {
    hide Scheduler.Valid, Core, Inv, Removed;
    InvHead(s.state);
    NotHead(s.state.ready, tid);
    IdsInRange(s.state);
    var prior, current, position := FindLinker(s, tid);
    if current == null {
      return THREAD_INVALID;
    }
    var gone := Destroy(s, prior, current, position);
    return tid;
  }

  /** thread_exit(THREAD_ANY) destroys the last of the ready queue. */
  method ExitLast(s: Scheduler) returns (ret: int)
    requires s.Valid() && Inv(s.state)
    modifies s`state, s`nodes, s.all, s.nodes, s.index
    ensures forall n :: n in s.nodes ==> n in old(s.nodes) || fresh(n)
    ensures var q := old(s.state).ready;
            && q != [] && s.Valid()
            && s.state == (if |q| == 1 then old(s.state) else Removed(old(s.state), |q| - 1))
            && ret == if |q| == 1 then THREAD_NONE else q[|q| - 1].id
  {
    hide Scheduler.Valid, Core, Inv, Removed;
    InvHead(s.state);
    IdsInRange(s.state);
    var size := s.ReadySize();
    if size == 1 {
      return THREAD_NONE;
    }
    var prior, current := LastLinker(s);
    var gone := Destroy(s, prior, current, size - 1);
    s.PushExited(gone);
    return gone.id;
  }

  /** thread_exit; the caller does not name its own id, and the last ready thread does not
      exit. The result is the id of the thread destroyed. */
  method ThreadExit(s: Scheduler, tid: int) returns (ret: int)
    requires && Ready(s) && (s.state.ready != [] ==> tid != s.state.ready[0].id)
             && (tid == THREAD_SELF ==> |s.state.ready| > 1)
    modifies s, s.all, s.nodes, s.index, s.state.tcb.Keys, s.state.locks.Keys
    ensures Made(s,
                 Next(old(s.state),
                      if tid == THREAD_ANY then ExitAny else if tid == THREAD_SELF then ExitSelf else ExitId(tid)))
    ensures s.all == old(s.all) && forall n :: n in s.nodes ==> n in old(s.nodes) || fresh(n)
    ensures var q := old(s.state).ready;
            && (tid >= 0 ==> ret == if Find(q, tid) < |q| then tid else THREAD_INVALID)
            && (tid == THREAD_ANY && q != [] ==> ret == if |q| == 1 then THREAD_NONE else q[|q| - 1].id)
            && (tid < THREAD_SELF ==> ret == THREAD_INVALID)
  {
    hide Scheduler.Valid, Core, Inv, Dispatch, Removed, Find, Next, Happens;
    InvHead(s.state);
    NotHead(s.state.ready, tid);
    ExitIs(s.state, tid);
    var enabled := s.InterruptsSet(false);
    if tid == THREAD_SELF {
      ExitSwitch(s);
      return 0;
    }
    if tid >= 0 {
      ret := ExitOther(s, tid);
    } else if tid == THREAD_ANY {
      ret := ExitLast(s);
    } else {
      ret := THREAD_INVALID;
    }
    var off := s.InterruptsSet(enabled);
  }

  lemma ExitIs(s: State, id: int)
    requires s.ready != []
    ensures Next(s, ExitAny) == Happens(if |s.ready| == 1 then s else Removed(s, |s.ready| - 1), Enabled)
    ensures var k := Find(s.ready, id);
            Next(s, ExitId(id)) == Happens(if k == |s.ready| then s else Removed(s, k), Enabled)
  {
    hide Removed, Find;
  }

  // ---- thread_create ----

  /** A new thread becomes known; no field of the program changes. */
  ghost method Adopt(s: Scheduler, t: Thread)
    requires s.Valid() && t !in s.state.tcb
    modifies s`state
    ensures s.Valid() && s.state == SetTcb(old(s.state), t, Tcb(t.status, t.context))
  {
    hide QueuesAgree, LocksAgree, IndexAgrees;
    s.state := SetTcb(s.state, t, Tcb(t.status, t.context));
  }

  /** The search for a free slot of the index. */
  method FreeSlot(s: Scheduler) returns (counter: nat)
    requires s.Valid()
    ensures 1 <= counter <= THREAD_MAX_THREADS
    ensures forall i: nat :: 1 <= i < counter ==> i in s.state.index
    ensures counter < THREAD_MAX_THREADS ==> counter !in s.state.index
  {
    hide QueuesAgree, LocksAgree, ThreadsAgree;
    counter := 1;
    while counter < THREAD_MAX_THREADS
      invariant 1 <= counter <= THREAD_MAX_THREADS
      invariant forall i: nat :: 1 <= i < counter ==> i in s.state.index
    {
      if s.index[counter] == null {
        break;
      }
      counter := counter + 1;
    }
  }

  /** Makes a control block, enters it into the index and puts it last in the ready queue. */
  method AddThread(s: Scheduler, id: nat, status: Status) returns (ghost t: Thread)
    requires s.Valid() && id < THREAD_MAX_THREADS
    modifies s`state, s`nodes, s.all, s.nodes, s.index
    ensures forall n :: n in s.nodes ==> n in old(s.nodes) || fresh(n)
    ensures fresh(t) && t !in old(s.state).tcb && t.id == id && s.Valid()
    ensures s.state == SetTcb(old(s.state).(ready := old(s.state).ready + [t], index := old(s.state).index[id := t]),
                              t, Tcb(status, Fresh))
  {
    var newThread := new Thread(id, status);
    t := newThread;
    hide Scheduler.Valid;
    Adopt(s, newThread);
    s.SetIndex(id, newThread);
    s.PushReady(newThread);
  }

  /** thread_create: the thread gets the least free id from 1 on and the last place of
      the ready queue. */
  method ThreadCreate(s: Scheduler) returns (ret: int, ghost t: Thread?)
    requires Ready(s)
    modifies s, s.all, s.nodes, s.index
    ensures s.all == old(s.all) && forall n :: n in s.nodes ==> n in old(s.nodes) || fresh(n)
    ensures ret == THREAD_NOMORE || ret >= 0
    ensures ret >= 0 ==>
              && t != null
              && fresh(t)
              && t.id == ret
              && Allowed(old(s.state), Create(t))
              && Made(s, Next(old(s.state), Create(t)))
    ensures ret == THREAD_NOMORE ==>
              && Made(s, Happens(old(s.state), Enabled))
              && forall i: nat :: 1 <= i < THREAD_MAX_THREADS ==> i in old(s.state).index
  {
    hide Scheduler.Valid, Core, Inv;
    InvHead(s.state);
    ghost var was := s.state;
    t := null;
    var enabled := s.InterruptsSet(false);
    var counter := FreeSlot(s);
    if counter == THREAD_MAX_THREADS {
      var off := s.InterruptsSet(enabled);
      return THREAD_NOMORE, t;
    }
    t := AddThread(s, counter, New);
    var off := s.InterruptsSet(enabled);
    return counter, t;
  }

  /** thread_init */
  method ThreadInit(s: Scheduler) returns (ghost main: Thread)
    requires s.Valid() && s.interrupts && s.state == Blank()
    modifies s, s.all, s.nodes, s.index
    ensures fresh(main) && main.id == 0 && s.state == Initial(main) && Ready(s)
    ensures s.all == old(s.all) && forall n :: n in s.nodes ==> n in old(s.nodes) || fresh(n)
  {
    hide Scheduler.Valid, Inv;
    main := AddThread(s, 0, Run);
    assert s.state.ready == [main];
    InitialInv(main);
  }

  // ---- thread_sleep, thread_wakeup ----

  lemma SleepKept(s: State, q: WaitQueue, context: Context)
    requires Inv(s) && |s.ready| > 1 && q in s.waiting && MaySleep(s, q, context)
    ensures Core(Suspend(s, q, context), 0, {})
    ensures var s' := Suspend(s, q, context);
            s'.ready != [] && s'.tcb.Keys == s.tcb.Keys && s'.locks == s.locks && s'.hung == s.hung
  {
    SuspendKeeps(s, q, context);
    ReadyHead(s);
    hide Core;
  }

  /** The running thread sleeps, and another one runs. */
  method SleepSwitch(s: Scheduler, q: WaitQueue, context: Context)
    requires s.Valid() && !s.interrupts && Inv(s.state) && !s.state.hung && |s.state.ready| > 1
    requires q in s.state.waiting && MaySleep(s.state, q, context)
    modifies s, s.all, s.nodes, s.state.tcb.Keys, s.state.locks.Keys
    ensures Suspend(old(s.state), q, context).ready != [] && Made(s, Dispatch(Suspend(old(s.state), q, context)))
    ensures s.all == old(s.all) && forall n :: n in s.nodes ==> n in old(s.nodes) || fresh(n)
  {
    hide Scheduler.Valid, Core, Inv, Dispatch, Suspend;
    InvHead(s.state);
    SleepKept(s.state, q, context);
    s.SuspendOn(q, context);
    s.Continue();
  }

  /** thread_sleep on a queue that is not that of a lock. Without a switch the result is
      THREAD_INVALID for no queue, and THREAD_NONE when nobody else is ready. After a
      switch it is the id of the thread that was behind the caller. */
  method ThreadSleep(s: Scheduler, q: WaitQueue?) returns (ret: int)
    requires Ready(s) && (q != null ==> OwnWaitQueue(s.state, q))
    modifies s, s.all, s.nodes, s.state.tcb.Keys, s.state.locks.Keys
    ensures Made(s, if q == null then Happens(old(s.state), Enabled) else Next(old(s.state), SleepOn(q)))
    ensures s.all == old(s.all) && forall n :: n in s.nodes ==> n in old(s.nodes) || fresh(n)
    ensures (q == null ==> ret == THREAD_INVALID) && (q != null && |old(s.state).ready| == 1 ==> ret == THREAD_NONE)
    ensures q != null && |old(s.state).ready| > 1 ==> ret == old(s.state).ready[1].id
  {
    hide Scheduler.Valid, Core, Inv, Dispatch, Suspend;
    InvHead(s.state);
    var enabled := s.InterruptsSet(false);
    if q == null {
      var off := s.InterruptsSet(enabled);
      return THREAD_INVALID;
    }
    var size := s.ReadySize();
    if size == 1 {
      var off := s.InterruptsSet(enabled);
      return THREAD_NONE;
    }
    var control := s.Control();
    SleepSwitch(s, q, InSleep);
    return control.id;
  }

  /** One turn of the loop of thread_wakeup. */
  method WakeFirst(s: Scheduler, q: WaitQueue, t: Thread)
    requires && s.Valid() && q in s.state.waiting && s.state.waiting[q] != [] && t == s.state.waiting[q][0]
             && t in s.state.tcb
    modifies s`state, s`nodes, s.all, s.nodes, s.state.tcb.Keys
    ensures s.Valid() && s.state == Waken(old(s.state), q)
    ensures forall n :: n in s.nodes ==> n in old(s.nodes) || fresh(n)
  {
    WakenSteps(s.state, q);
    hide Scheduler.Valid, Waken, SetTcb, Happens;
    var context := s.ContextOf(t);
    s.SetThread(t, Idle, context);
    s.PopWait(q);
    s.PushReady(t);
    s.Record(Woke(t, q));
  }

  lemma WakenSteps(s: State, q: WaitQueue)
    requires q in s.waiting && s.waiting[q] != []
    ensures var t := s.waiting[q][0];
            var s1 := SetTcb(s, t, Tcb(Idle, TcbOf(s, t).context));
            && q in s1.waiting && s1.waiting[q] == s.waiting[q]
            && var s2 := s1.(waiting := s1.waiting[q := s1.waiting[q][1..]]);
               Waken(s, q) == Happens(s2.(ready := s2.ready + [t]), Woke(t, q))
  {}

  /** The threads that wait in a queue have control blocks. */
  ghost predicate Known(s: State, q: WaitQueue) {
    q in s.waiting && forall t :: t in s.waiting[q] ==> t in s.tcb
  }

  lemma InvKnown(s: State, q: WaitQueue)
    requires Inv(s) && OwnWaitQueue(s, q)
    ensures Known(s, q) && q in s.waiting
  {
    hide OnePlace, Parked, Exclusive, InOrderOfSleep, NoneWaitsForFree, LockQueues;
  }

  /** What the loop of thread_wakeup keeps. */
  lemma WakenKept(s: State, q: WaitQueue)
    requires Known(s, q)
    ensures s.waiting[q] != [] ==>
              && s.waiting[q][0] in s.tcb && Known(Waken(s, q), q)
              && WakenAll(Waken(s, q), q) == WakenAll(s, q)
              && Waken(s, q).tcb.Keys == s.tcb.Keys
              && |Waken(s, q).waiting[q]| == |s.waiting[q]| - 1
  {}

  /** Some threads of the queue have been woken, and waking the rest completes it. */
  ghost predicate Waking(was: State, s: State, q: WaitQueue, woken: nat) {
    && Known(s, q) && q in was.waiting && WakenAll(s, q) == WakenAll(was, q)
    && s.tcb.Keys == was.tcb.Keys && woken + |s.waiting[q]| == |was.waiting[q]|
  }

  lemma WakingStep(was: State, s: State, q: WaitQueue, woken: nat)
    requires Waking(was, s, q, woken) && s.waiting[q] != []
    ensures s.waiting[q][0] in s.tcb && Waking(was, Waken(s, q), q, woken + 1) && q in Waken(s, q).waiting
    ensures woken < |was.waiting[q]| && Waken(s, q).tcb.Keys == was.tcb.Keys
  {
    WakenKept(s, q);
    hide Waken, WakenAll;
  }

  /** Wakes the first thread of a queue and looks at the next one. */
  method WakeOne(s: Scheduler, q: WaitQueue, t: Thread, ghost was: State, ghost woken: nat)
    returns (next: Thread?)
    requires s.Valid() && Waking(was, s.state, q, woken)
    requires && q in s.state.waiting && s.state.waiting[q] != [] && t == s.state.waiting[q][0]
             && s.state.tcb.Keys == was.tcb.Keys
    modifies s`state, s`nodes, s.all, s.nodes, s.state.tcb.Keys
    ensures s.Valid() && Waking(was, s.state, q, woken + 1) && woken < |was.waiting[q]|
    ensures q in s.state.waiting && next == if s.state.waiting[q] == [] then null else s.state.waiting[q][0]
    ensures s.state.tcb.Keys == was.tcb.Keys
    ensures forall n :: n in s.nodes ==> n in old(s.nodes) || fresh(n)
  {
    hide Scheduler.Valid, Waken, WakenAll, Waking;
    WakingStep(was, s.state, q, woken);
    WakeFirst(s, q, t);
    next := s.FirstWaiting(q);
  }

  /** The loop of thread_wakeup for all threads of a queue. */
  method WakeEveryone(s: Scheduler, q: WaitQueue) returns (woken: nat)
    requires s.Valid() && q in s.state.waiting && Known(s.state, q)
    modifies s`state, s`nodes, s.all, s.nodes, s.state.tcb.Keys
    ensures s.Valid() && s.state == WakenAll(old(s.state), q) && woken == |old(s.state).waiting[q]|
    ensures forall n :: n in s.nodes ==> n in old(s.nodes) || fresh(n)
  {
    hide Scheduler.Valid, Waken, WakenAll, Waking, Known;
    WakingStarts(s.state, q);
    ghost var was := s.state;
    woken := 0;
    var t := s.FirstWaiting(q);
    while t != null
      invariant s.Valid() && q in s.state.waiting && Waking(was, s.state, q, woken)
      invariant t == if s.state.waiting[q] == [] then null else s.state.waiting[q][0]
      invariant s.state.tcb.Keys == was.tcb.Keys
      invariant forall n :: n in s.nodes ==> n in old(s.nodes) || fresh(n)
      decreases |was.waiting[q]| - woken
    {
      t := WakeOne(s, q, t, was, woken);
      woken := woken + 1;
    }
    WakingDone(was, s.state, q, woken);
  }

  lemma WakingStarts(s: State, q: WaitQueue)
    requires Known(s, q)
    ensures Waking(s, s, q, 0)
  {
    hide WakenAll;
  }

  lemma WakingDone(was: State, s: State, q: WaitQueue, woken: nat)
    requires Waking(was, s, q, woken) && Waiting(s, q) == []
    ensures s == WakenAll(was, q) && woken == |was.waiting[q]|
  {
    WakenAllNone(s, q);
    hide WakenAll;
  }

  lemma WakenAllNone(s: State, q: WaitQueue)
    requires Waiting(s, q) == []
    ensures WakenAll(s, q) == s
  {}

  /** thread_wakeup with interrupts off: the first thread of the queue, or all of them in
      order, go to the end of the ready queue. */
  method Wake(s: Scheduler, q: WaitQueue, everyone: bool) returns (woken: nat)
    requires s.Valid() && q in s.state.waiting && Known(s.state, q)
    modifies s`state, s`nodes, s.all, s.nodes, s.state.tcb.Keys
    ensures s.Valid() && s.state == WakeStep(old(s.state), q, everyone)
    ensures forall n :: n in s.nodes ==> n in old(s.nodes) || fresh(n)
    ensures var w := old(s.state).waiting[q]; woken == if everyone then |w| else if w == [] then 0 else 1
  {
    hide Scheduler.Valid, Waken, WakenAll;
    var t := s.FirstWaiting(q);
    if t == null {
      return 0;
    }
    if everyone {
      woken := WakeEveryone(s, q);
    } else {
      WakenKept(s.state, q);
      WakeFirst(s, q, t);
      woken := 1;
    }
  }

  /** thread_wakeup */
  method ThreadWakeup(s: Scheduler, q: WaitQueue?, everyone: bool) returns (woken: nat)
    requires Ready(s) && (q != null ==> OwnWaitQueue(s.state, q))
    modifies s, s.all, s.nodes, s.state.tcb.Keys
    ensures Made(s, if q == null then Happens(old(s.state), Enabled) else Next(old(s.state), Wakeup(q, everyone)))
    ensures s.all == old(s.all) && forall n :: n in s.nodes ==> n in old(s.nodes) || fresh(n)
    ensures woken == if q == null then 0
                     else if everyone then |Waiting(old(s.state), q)|
                     else if Waiting(old(s.state), q) == [] then 0 else 1
  {
    hide Scheduler.Valid, Core, Inv, Waken, WakenAll, WakeStep, Known, OwnWaitQueue;
    InvHead(s.state);
    if q != null { InvKnown(s.state, q); }
    var enabled := s.InterruptsSet(false);
    woken := 0;
    if q != null {
      woken := Wake(s, q, everyone);
    }
    var off := s.InterruptsSet(enabled);
  }

  // ---- locks ----

  /** lock_acquire: the caller returns with the lock, at once or after sleeping. */
  method LockAcquire(s: Scheduler, l: Lock)
    requires Ready(s) && l in s.state.locks
    modifies s, s.all, s.nodes, s.state.tcb.Keys, s.state.locks.Keys
    ensures Made(s, Next(old(s.state), Acquire(l)))
    ensures s.all == old(s.all) && forall n :: n in s.nodes ==> n in old(s.nodes) || fresh(n)
  {
    hide Scheduler.Valid, Core, Inv, AcquireLoop;
    InvHead(s.state);
    var enabled := s.InterruptsSet(false);
    s.AcquireOrSleep(l);
  }

  lemma ReleasedKnown(s: State, l: Lock)
    requires Inv(s) && s.ready != [] && l in s.locks
    ensures Known(s.(locks := s.locks[l := None], log := s.log + [Released(l, s.ready[0])]), l.queue)
    ensures l.queue in s.waiting
  {
    hide OnePlace, Parked, Exclusive, InOrderOfSleep, NoneWaitsForFree;
  }

  /** lock_release with interrupts off, as it is called inside cv_wait. The source clears
      the pointer to the holder after waking the waiters; nobody can look in between. */
  method LetGoOf(s: Scheduler, l: Lock)
    requires s.Valid() && !s.interrupts && Inv(s.state) && s.state.ready != [] && l in s.state.locks
    modifies s`state, s`nodes, s.all, s.nodes, s.state.tcb.Keys, s.state.locks.Keys
    ensures s.Valid() && s.state == LetGo(old(s.state), l)
    ensures forall n :: n in s.nodes ==> n in old(s.nodes) || fresh(n)
  {
    hide Scheduler.Valid, Core, Inv, WakenAll, LetGo, Known;
    ReleasedKnown(s.state, l);
    LetGoIs(s.state, l);
    var current := s.Head();
    s.SetLock(l, null);
    s.Record(Released(l, current));
    var woken := WakeEveryone(s, l.queue);
  }

  lemma LetGoIs(s: State, l: Lock)
    requires s.ready != []
    ensures LetGo(s, l) == WakenAll(s.(locks := s.locks[l := None], log := s.log + [Released(l, s.ready[0])]), l.queue)
  {}

  /** lock_release, by whoever calls it. */
  method LockRelease(s: Scheduler, l: Lock)
    requires Ready(s) && s.state.ready != [] && l in s.state.locks
    modifies s, s.all, s.nodes, s.state.tcb.Keys, s.state.locks.Keys
    ensures Made(s, Next(old(s.state), Release(l)))
    ensures s.all == old(s.all) && forall n :: n in s.nodes ==> n in old(s.nodes) || fresh(n)
  {
    hide Scheduler.Valid, Core, Inv, LetGo;
    var enabled := s.InterruptsSet(false);
    LetGoOf(s, l);
    var off := s.InterruptsSet(enabled);
  }

  // ---- condition variables ----

  /** struct cv: its wait queue */
  class Cv {
    const queue: WaitQueue

    constructor (queue: WaitQueue)
      ensures this.queue == queue
    {
      this.queue := queue;
    }
  }

  lemma FreedLock(s: State, l: Lock)
    requires Inv(s) && s.ready != [] && Owner(s, l) == Some(s.ready[0])
    ensures var free := LetGo(s, l);
            && Inv(free) && free.ready != [] && l in free.locks && free.locks.Keys == s.locks.Keys
            && free.tcb.Keys == s.tcb.Keys
            && free.waiting.Keys == s.waiting.Keys && free.hung == s.hung
  {
    LetGoKeeps(s, l);
    LetGoTcb(s, l);
    hide Core, LetGo;
  }

  lemma FreedWaits(s: State, q: WaitQueue, l: Lock)
    requires Inv(s) && s.ready != [] && Owner(s, l) == Some(s.ready[0]) && OwnWaitQueue(s, q)
    ensures var free := LetGo(s, l);
            && Inv(free) && free.ready != [] && l in free.locks && OwnWaitQueue(free, q)
            && free.locks.Keys == s.locks.Keys && free.tcb.Keys == s.tcb.Keys && free.hung == s.hung
  {
    hide Inv, LetGo;
    FreedLock(s, l);
  }

  lemma {:induction false} WakenAllTcb(s: State, q: WaitQueue)
    requires Known(s, q)
    ensures WakenAll(s, q).tcb.Keys == s.tcb.Keys
    decreases |Waiting(s, q)|
  {
    WakenKept(s, q);
    WakenAllStep(s, q);
    hide WakenAll, Waken;
    if s.waiting[q] != [] { WakenAllTcb(Waken(s, q), q); }
  }

  lemma LetGoTcb(s: State, l: Lock)
    requires Inv(s) && s.ready != [] && Owner(s, l) == Some(s.ready[0])
    ensures LetGo(s, l).tcb.Keys == s.tcb.Keys
  {
    ReleasedKnown(s, l);
    hide Core, LetGo, WakenAll, Known;
    LetGoIs(s, l);
    WakenAllTcb(s.(locks := s.locks[l := None], log := s.log + [Released(l, s.ready[0])]), l.queue);
  }

  /** Whether the running thread holds the lock. */
  method Holds(s: Scheduler, l: Lock) returns (holds: bool)
    requires s.Valid() && l in s.state.locks && s.state.ready != []
    ensures holds <==> Owner(s.state, l) == Some(s.state.ready[0])
  {
    var current := s.Head();
    hide QueuesAgree, ThreadsAgree, IndexAgrees;
    holds := l.lockedThread == current && l.locked;
  }

  /** cv_wait after the release: thread_sleep, then lock_acquire. */
  method WaitReleased(s: Scheduler, q: WaitQueue, l: Lock)
    requires s.Valid() && !s.interrupts && Inv(s.state) && !s.state.hung && s.state.ready != []
    requires OwnWaitQueue(s.state, q) && l in s.state.locks
    modifies s, s.all, s.nodes, s.state.tcb.Keys, s.state.locks.Keys
    ensures Made(s, SleepThenAcquire(old(s.state), q, l))
    ensures s.all == old(s.all) && forall n :: n in s.nodes ==> n in old(s.nodes) || fresh(n)
  {
    hide Scheduler.Valid, Core, Inv, Dispatch, AcquireLoop, Suspend;
    var size := s.ReadySize();
    if size == 1 {
      // thread_sleep returns THREAD_NONE
      s.AcquireOrSleep(l);
    } else {
      SleepSwitch(s, q, InCvWait(l));
    }
  }

  function SleepThenAcquire(s: State, q: WaitQueue, l: Lock): State
    requires s.ready != []
  {
    if |s.ready| == 1 then AcquireLoop(s, l) else Dispatch(Suspend(s, q, InCvWait(l)))
  }

  lemma CvWaitIs(s: State, q: WaitQueue, l: Lock)
    requires s.ready != [] && Owner(s, l) == Some(s.ready[0]) && LetGo(s, l).ready != []
    ensures CvWaitStep(s, q, l) == SleepThenAcquire(LetGo(s, l), q, l)
  {
    hide LetGo, AcquireLoop, Dispatch;
  }

  /** cv_wait by the holder: the nested calls leave interrupts off, so they are off from
      the release of the lock until the caller sleeps. */
  method WaitHolding(s: Scheduler, cv: Cv, l: Lock)
    requires s.Valid() && !s.interrupts && Inv(s.state) && !s.state.hung && s.state.ready != []
    requires OwnWaitQueue(s.state, cv.queue) && l in s.state.locks && Owner(s.state, l) == Some(s.state.ready[0])
    modifies s, s.all, s.nodes, s.state.tcb.Keys, s.state.locks.Keys
    ensures Made(s, CvWaitStep(old(s.state), cv.queue, l))
    ensures s.all == old(s.all) && forall n :: n in s.nodes ==> n in old(s.nodes) || fresh(n)
  {
    hide Scheduler.Valid, Core, Inv, LetGo, SleepThenAcquire, CvWaitStep, OwnWaitQueue, Owner;
    FreedWaits(s.state, cv.queue, l);
    CvWaitIs(s.state, cv.queue, l);
    LetGoOf(s, l);
    WaitReleased(s, cv.queue, l);
  }

  /** cv_wait */
  method Wait(s: Scheduler, cv: Cv, l: Lock)
    requires Ready(s) && OwnWaitQueue(s.state, cv.queue) && l in s.state.locks
    modifies s, s.all, s.nodes, s.state.tcb.Keys, s.state.locks.Keys
    ensures Made(s, Next(old(s.state), CvWait(cv.queue, l)))
    ensures s.all == old(s.all) && forall n :: n in s.nodes ==> n in old(s.nodes) || fresh(n)
  {
    hide Scheduler.Valid, Core, Inv, Next, CvWaitStep;
    InvHead(s.state);
    NextWait(s.state, cv.queue, l);
    var enabled := s.InterruptsSet(false);
    var holds := Holds(s, l);
    if holds {
      WaitHolding(s, cv, l);
    } else {
      NotHolding(s.state, cv.queue, l);
      var off := s.InterruptsSet(enabled);
    }
  }

  lemma NextWait(s: State, q: WaitQueue, l: Lock)
    requires s.ready != []
    ensures Next(s, CvWait(q, l)) == CvWaitStep(s, q, l)
  {
    hide CvWaitStep;
  }

  lemma NextSignal(s: State, q: WaitQueue, l: Lock, everyone: bool)
    requires s.ready != []
    ensures Next(s, if everyone then CvBroadcast(q, l) else CvSignal(q, l)) ==
            Happens(Signalled(s, q, l, everyone), Enabled)
  {
    hide WakeStep;
  }

  lemma NotHolding(s: State, q: WaitQueue, l: Lock)
    requires s.ready != [] && Owner(s, l) != Some(s.ready[0])
    ensures CvWaitStep(s, q, l) == Happens(s, Enabled)
  {}

  /** cv_signal and cv_broadcast with interrupts off */
  method SignalHeld(s: Scheduler, q: WaitQueue, l: Lock, everyone: bool)
    requires s.Valid() && q in s.state.waiting && Known(s.state, q) && l in s.state.locks && s.state.ready != []
    modifies s`state, s`nodes, s.all, s.nodes, s.state.tcb.Keys
    ensures s.Valid() && s.state == Signalled(old(s.state), q, l, everyone)
    ensures forall n :: n in s.nodes ==> n in old(s.nodes) || fresh(n)
  {
    hide Scheduler.Valid, WakeStep, Known;
    var holds := Holds(s, l);
    if holds {
      var woken := Wake(s, q, everyone);
    }
  }

  /** cv_signal and cv_broadcast */
  method Signal(s: Scheduler, cv: Cv, l: Lock, everyone: bool)
    requires Ready(s) && OwnWaitQueue(s.state, cv.queue) && l in s.state.locks
    modifies s, s.all, s.nodes, s.state.tcb.Keys
    ensures Made(s, Next(old(s.state), if everyone then CvBroadcast(cv.queue, l) else CvSignal(cv.queue, l)))
    ensures s.all == old(s.all) && forall n :: n in s.nodes ==> n in old(s.nodes) || fresh(n)
  {
    hide Scheduler.Valid, Core, Inv, WakeStep, Next, Happens, Owner, OwnWaitQueue, Signalled, Known;
    InvHead(s.state);
    InvKnown(s.state, cv.queue);
    NextSignal(s.state, cv.queue, l, everyone);
    var enabled := s.InterruptsSet(false);
    SignalHeld(s, cv.queue, l, everyone);
    var off := s.InterruptsSet(enabled);
  }

  /** A signal or broadcast has an effect only if the caller holds the lock. */
  function Signalled(s: State, q: WaitQueue, l: Lock, everyone: bool): State {
    if s.ready != [] && Owner(s, l) == Some(s.ready[0]) then WakeStep(s, q, everyone) else s
  }

  // ---- new wait queues, locks and condition variables ----

  lemma QueueAdded(inReady: seq<Thread>, waiting: map<WaitQueue, seq<Thread>>, ready: Queue<Thread>,
                   exited: Queue<Thread>,
                   all: set<Queue<Thread>>, nodes: set<Linker<Thread>>, q: WaitQueue)
    requires QueuesAgree(inReady, waiting, ready, exited, all, nodes) && q !in waiting
    requires q.queue !in all && q.queue.Valid() && q.queue.linkers == []
    ensures QueuesAgree(inReady, waiting[q := []], ready, exited, all + {q.queue}, nodes)
  {
    assert q.queue.Frame() == {} && q.queue.Contents() == [];
    hide Queue.Valid, Queue.Contents, Queue.Frame;
  }

  /** A new wait queue becomes known; no field of the program changes. */
  ghost method AdoptQueue(s: Scheduler, q: WaitQueue)
    requires s.Valid() && q !in s.state.waiting && q.queue !in s.all && q.queue.Valid() && q.queue.linkers == []
    modifies s`state, s`all
    ensures && s.Valid() && s.state == old(s.state).(waiting := old(s.state).waiting[q := []])
            && s.all == old(s.all) + {q.queue}
  {
    QueueAdded(s.state.ready, s.state.waiting, s.ready, s.exited, s.all, s.nodes, q);
    assert s.state.waiting[q := []].Keys == s.state.waiting.Keys + {q};
    hide QueuesAgree, ThreadsAgree, IndexAgrees;
    s.all := s.all + {q.queue};
    s.state := s.state.(waiting := s.state.waiting[q := []]);
  }

  /** wait_queue_create; cv_create does no more. */
  method WaitQueueCreate(s: Scheduler) returns (q: WaitQueue)
    requires s.Valid()
    modifies s`state, s`all
    ensures fresh(q) && fresh(q.queue) && s.all == old(s.all) + {q.queue} && s.Valid()
    ensures q !in old(s.state).waiting && UnusedQueue(old(s.state).log, q) && forall l :: l in old(s.state).locks ==>
              l.queue != q
    ensures s.state == old(s.state).(waiting := old(s.state).waiting[q := []])
    ensures old(s.state).ready != [] ==> s.state == Next(old(s.state), NewQueue(q))
  {
    q := new WaitQueue();
    assert s.Valid();
    hide Scheduler.Valid;
    AdoptQueue(s, q);
  }

  /** A new lock becomes known; no field of the program changes. */
  ghost method AdoptLock(s: Scheduler, l: Lock)
    requires s.Valid() && l !in s.state.locks && l.queue in s.state.waiting && !l.locked && l.lockedThread == null
    modifies s`state
    ensures s.Valid() && s.state == old(s.state).(locks := old(s.state).locks[l := None])
  {
    hide QueuesAgree, ThreadsAgree, IndexAgrees;
    s.state := s.state.(locks := s.state.locks[l := None]);
  }

  /** lock_create: a free lock with a wait queue of its own. */
  method LockCreate(s: Scheduler) returns (l: Lock)
    requires Ready(s) && s.state.ready != []
    modifies s
    ensures fresh(l) && fresh(l.queue) && s.all == old(s.all) + {l.queue.queue} && s.nodes == old(s.nodes)
    ensures Allowed(old(s.state), NewLock(l)) && Made(s, Next(old(s.state), NewLock(l)))
  {
    hide Scheduler.Valid, Inv;
    ghost var was := s.state;
    var enabled := s.InterruptsSet(false);
    var q := WaitQueueCreate(s);
    l := new Lock(q);
    assert UnusedLock(was.log, l);
    AdoptLock(s, l);
    var off := s.InterruptsSet(enabled);
  }
}
