/** webserver/server_thread.c: the bounded pool of requests between the main thread and the
    worker threads. What a thread does while it holds the lock is one step; a wait on a
    condition variable ends the step, and the thread tries again after a wakeup. */
module WebPool {
  import opened Options
  import opened WebList

  /** The main thread: with no request, about to take the lock, or waiting for room. */
  datatype Producer = Idle | Trying(conn: int) | Asleep(conn: int)

  /** A worker: about to take the lock, waiting for a request, or serving one. */
  datatype Worker = Looking | Sleeping | Serving(conn: int)

  datatype Monitor = Monitor(
    pool: seq<int>, max: nat, producer: Producer, workers: seq<Worker>,
    /** all requests put into the pool and all taken out, in order */
    accepted: seq<int>, taken: seq<int>)

  datatype Step =
    /** a connection arrives */
    | Arrive(conn: int)
    /** the main thread gets the lock; its signal reaches a waiting worker */
    | Enter(wake: nat)
    /** a worker gets the lock */
    | Take(w: nat)
    /** a worker is done with its request */
    | Done(w: nat)
    /** wakeups without a signal */
    | SpuriousWorker(w: nat)
    | SpuriousProducer

  ghost predicate Allowed(m: Monitor, step: Step) {
    match step
    case Arrive(conn) => m.producer == Idle
    case Enter(wake) =>
      m.producer.Trying? && (Sleeping in m.workers ==> wake < |m.workers| && m.workers[wake] == Sleeping)
    case Take(w) => w < |m.workers| && m.workers[w] == Looking
    case Done(w) => w < |m.workers| && m.workers[w].Serving?
    case SpuriousWorker(w) => w < |m.workers| && m.workers[w] == Sleeping
    case SpuriousProducer => m.producer.Asleep?
  }

  /** A signal wakes one waiting worker, or nobody. */
  function Signalled(workers: seq<Worker>, wake: nat): seq<Worker> {
    if wake < |workers| && workers[wake] == Sleeping then workers[wake := Looking] else workers
  }

  function Next(m: Monitor, step: Step): Monitor {
    match step
    case Arrive(conn) => m.(producer := Trying(conn))
    case Enter(wake) =>
      if !m.producer.Trying? then m
      else if |m.pool| == m.max then m.(producer := Asleep(m.producer.conn))
      else m.(producer := Idle, pool := m.pool + [m.producer.conn], accepted := m.accepted + [m.producer.conn],
              workers := Signalled(m.workers, wake))
    case Take(w) =>
      if |m.workers| <= w then m
      else if m.pool == [] then m.(workers := m.workers[w := Sleeping])
      else m.(workers := m.workers[w := Serving(m.pool[0])], pool := m.pool[1..], taken := m.taken + [m.pool[0]],
              producer := if m.producer.Asleep? then Trying(m.producer.conn) else m.producer)
    case Done(w) => if |m.workers| <= w then m else m.(workers := m.workers[w := Looking])
    case SpuriousWorker(w) => if |m.workers| <= w then m else m.(workers := m.workers[w := Looking])
    case SpuriousProducer => if m.producer.Asleep? then m.(producer := Trying(m.producer.conn)) else m
  }

  /** How many workers do not wait. */
  function AwakeCount(workers: seq<Worker>): (n: nat)
    ensures n <= |workers|
  {
    if workers == [] then 0 else (if workers[0] == Sleeping then 0 else 1) + AwakeCount(workers[1..])
  }

  /** The pool is bounded and first in first out, the main thread waits only while it is
      full, and as many workers are awake as there are requests, or all of them. */
  ghost predicate Inv(m: Monitor) {
    && |m.pool| <= m.max
    && m.accepted == m.taken + m.pool
    && (m.producer.Asleep? ==> |m.pool| == m.max)
    && (|m.pool| <= AwakeCount(m.workers) || AwakeCount(m.workers) == |m.workers|)
  }

  ghost predicate Stuck(m: Monitor) {
    m.producer.Asleep? && forall w :: 0 <= w < |m.workers| ==> m.workers[w] == Sleeping
  }

  // ---- every step ----

  lemma {:induction false} AwakeChanged(workers: seq<Worker>, w: nat, to: Worker)
    requires w < |workers|
    ensures AwakeCount(workers[w := to]) ==
            AwakeCount(workers) - (if workers[w] == Sleeping then 0 else 1) + (if to == Sleeping then 0 else 1)
  {
    if 0 < w {
      assert workers[w := to][1..] == workers[1..][w - 1 := to];
      AwakeChanged(workers[1..], w - 1, to);
    }
  }

  lemma {:induction false} AwakeAll(workers: seq<Worker>)
    ensures AwakeCount(workers) == |workers| <==> Sleeping !in workers
    ensures AwakeCount(workers) == 0 <==> forall w :: 0 <= w < |workers| ==> workers[w] == Sleeping
  {
    if workers != [] { AwakeAll(workers[1..]); }
  }

  lemma NextKeeps(m: Monitor, step: Step)
    requires Inv(m) && Allowed(m, step)
    ensures Inv(Next(m, step))
  {
    match step
    case Arrive(conn) =>
    case Enter(wake) =>
      AwakeAll(m.workers);
      if wake < |m.workers| && m.workers[wake] == Sleeping { AwakeChanged(m.workers, wake, Looking); }
    case Take(w) =>
      AwakeChanged(m.workers, w, if m.pool == [] then Sleeping else Serving(m.pool[0]));
    case Done(w) => AwakeChanged(m.workers, w, Looking);
    case SpuriousWorker(w) => AwakeChanged(m.workers, w, Looking);
    case SpuriousProducer =>
  }

  // ---- whole runs ----

  function Initial(max: nat, threads: nat): Monitor {
    Monitor([], max, Idle, seq(threads, w => Looking), [], [])
  }

  function After(m: Monitor, steps: seq<Step>): Monitor
    decreases |steps|
  {
    if steps == [] then m else Next(After(m, steps[..|steps| - 1]), steps[|steps| - 1])
  }

  ghost predicate IsRun(m: Monitor, steps: seq<Step>)
    decreases |steps|
  {
    steps == [] ||
    var n := |steps| - 1;
    IsRun(m, steps[..n]) && Allowed(After(m, steps[..n]), steps[n])
  }

  lemma {:induction false} RunKeeps(m: Monitor, steps: seq<Step>)
    requires Inv(m) && IsRun(m, steps)
    ensures var r := After(m, steps); Inv(r) && r.max == m.max && |r.workers| == |m.workers|
    decreases |steps|
  {
    if steps != [] {
      var n := |steps| - 1;
      RunKeeps(m, steps[..n]);
      NextKeeps(After(m, steps[..n]), steps[n]);
    }
  }

  /** In every run the pool is bounded, and what is taken is exactly what was accepted
      first, each request once. */
  lemma FirstInFirstOut(max: nat, threads: nat, steps: seq<Step>)
    requires IsRun(Initial(max, threads), steps)
    ensures var m := After(Initial(max, threads), steps);
            && |m.pool| <= max && |m.taken| <= |m.accepted|
            && m.taken == m.accepted[..|m.taken|] && m.pool == m.accepted[|m.taken|..]
  {
    InitialInv(max, threads);
    RunKeeps(Initial(max, threads), steps);
  }

  /** The connections that arrive, in order. */
  function Arrivals(steps: seq<Step>): seq<int>
    decreases |steps|
  {
    if steps == [] then [] else
      var n := |steps| - 1;
      Arrivals(steps[..n]) + if steps[n].Arrive? then [steps[n].conn] else []
  }

  /** The connection that the main thread holds. */
  function Pending(m: Monitor): seq<int> {
    if m.producer.Idle? then [] else [m.producer.conn]
  }

  /** No connection is lost or made up: in every run those that have arrived are, in order,
      the ones the workers have taken, the ones in the pool, and the one that the main
      thread holds. */
  lemma {:induction false} NoneLost(max: nat, threads: nat, steps: seq<Step>)
    requires IsRun(Initial(max, threads), steps)
    ensures var m := After(Initial(max, threads), steps);
            && Arrivals(steps) == m.accepted + Pending(m) && Arrivals(steps) == m.taken + m.pool + Pending(m)
    decreases |steps|
  {
    InitialInv(max, threads);
    RunKeeps(Initial(max, threads), steps);
    if steps != [] { NoneLost(max, threads, steps[..|steps| - 1]); }
  }

  lemma InitialInv(max: nat, threads: nat)
    ensures Inv(Initial(max, threads))
  {
    AwakeAll(Initial(max, threads).workers);
  }

  /** The main thread and all workers wait for each other in no run, exactly if the pool has
      a place. */
  lemma NeverStuckIff(max: nat, threads: nat)
    requires 0 < threads
    ensures (forall steps :: IsRun(Initial(max, threads), steps) ==> !Stuck(After(Initial(max, threads), steps))) <==>
              0 < max
  {
    var m := Initial(max, threads);
    InitialInv(max, threads);
    if 0 < max {
      forall steps | IsRun(m, steps) ensures !Stuck(After(m, steps)) {
        RunKeeps(m, steps);
        AwakeAll(After(m, steps).workers);
      }
    } else {
      var steps := AllSleep(threads, threads);
      var asleep := After(m, steps);
      OneStep(asleep, Arrive(0));
      OneStep(Next(asleep, Arrive(0)), Enter(0));
      RunsJoin(asleep, [Arrive(0)], [Enter(0)]);
      RunsJoin(m, steps, [Arrive(0)] + [Enter(0)]);
      var more := steps + ([Arrive(0)] + [Enter(0)]);
      assert IsRun(m, more) && Stuck(After(m, more));
    }
  }

  /** With no request the workers go to sleep one after the other. */
  lemma {:induction false} AllSleep(threads: nat, n: nat) returns (steps: seq<Step>)
    requires n <= threads
    ensures var m := Initial(0, threads);
            && IsRun(m, steps)
            && After(m, steps) == m.(workers := After(m, steps).workers) && |After(m, steps).workers| == threads
            && forall w :: 0 <= w < threads ==> After(m, steps).workers[w] == if w < n then Sleeping else Looking
  {
    if n == 0 {
      steps := [];
    } else {
      var front := AllSleep(threads, n - 1);
      steps := front + [Take(n - 1)];
      assert steps[..|steps| - 1] == front;
    }
  }

  /** A run can be made step by step. */
  lemma {:induction false} StepOfRun(m: Monitor, steps: seq<Step>, k: nat)
    requires IsRun(m, steps) && k < |steps|
    ensures Allowed(After(m, steps[..k]), steps[k])
    ensures After(m, steps[..k + 1]) == Next(After(m, steps[..k]), steps[k])
    decreases |steps|
  {
    var n := |steps| - 1;
    if k < n {
      StepOfRun(m, steps[..n], k);
      assert steps[..n][..k] == steps[..k] && steps[..n][..k + 1] == steps[..k + 1];
    } else {
      assert steps[..k + 1] == steps;
    }
  }

  // ---- a request is never left lying ----

  /** Whatever is in the pool can be taken by the workers alone, in order, in at most two
      steps for each request; then the main thread does not wait. */
  lemma {:induction false} Drains(m: Monitor) returns (steps: seq<Step>)
    requires Inv(m) && m.workers != []
    ensures IsRun(m, steps) && |steps| <= 2 * |m.pool|
    ensures forall n :: 0 <= n < |steps| ==> steps[n].Take? || steps[n].Done?
    ensures After(m, steps).pool == [] && After(m, steps).taken == m.taken + m.pool
    ensures 0 < m.max ==> !After(m, steps).producer.Asleep?
    decreases |m.pool|
  {
    if m.pool == [] {
      return [];
    }
    AwakeAll(m.workers);
    var w :| 0 <= w < |m.workers| && m.workers[w] != Sleeping;
    var first := if m.workers[w].Serving? then [Done(w), Take(w)] else [Take(w)];
    var mid := After(m, first);
    FirstTaken(m, w, first);
    var rest := Drains(mid);
    steps := first + rest;
    RunsJoin(m, first, rest);
  }

  lemma OneStep(m: Monitor, step: Step)
    ensures After(m, [step]) == Next(m, step)
    ensures IsRun(m, [step]) <==> Allowed(m, step)
  {
    var steps := [step];
    var none := steps[..|steps| - 1];
    assert none == [];
    assert After(m, none) == m && IsRun(m, none);
  }

  lemma FirstTaken(m: Monitor, w: nat, first: seq<Step>)
    requires Inv(m) && m.pool != [] && w < |m.workers| && m.workers[w] != Sleeping
    requires first == if m.workers[w].Serving? then [Done(w), Take(w)] else [Take(w)]
    ensures IsRun(m, first)
    ensures var r := After(m, first);
            && Inv(r) && r.pool == m.pool[1..] && r.taken == m.taken + [m.pool[0]]
            && |r.workers| == |m.workers| && r.max == m.max
  {
    if m.workers[w].Serving? {
      OneStep(m, Done(w));
      var found := Next(m, Done(w));
      OneStep(found, Take(w));
      RunsJoin(m, [Done(w)], [Take(w)]);
      assert first == [Done(w)] + [Take(w)];
    } else {
      OneStep(m, Take(w));
    }
    RunKeeps(m, first);
  }

  lemma {:induction false} RunsJoin(m: Monitor, a: seq<Step>, b: seq<Step>)
    requires IsRun(m, a) && IsRun(After(m, a), b)
    ensures IsRun(m, a + b) && After(m, a + b) == After(After(m, a), b)
    decreases |b|
  {
    if b == [] {
      assert a + b == a;
    } else {
      var n := |b| - 1;
      RunsJoin(m, a, b[..n]);
      assert (a + b)[..|a + b| - 1] == a + b[..n] && (a + b)[|a + b| - 1] == b[n];
    }
  }

  // ---- the pool as it is stored ----

  /** The list of connections with the monitor it is part of. */
  class RequestPool {
    const pool: List<int>
    const maxRequests: nat
    ghost var state: Monitor

    ghost predicate Valid()
      reads this, pool, pool.linkers
    {
      pool.Valid() && pool.Contents() == state.pool && maxRequests == state.max && Inv(state)
    }

    /** All objects the pool is made of. */
    ghost function Footprint(): (objects: set<object>)
      reads this, pool
    {
      {this, pool} + set n | n in pool.linkers
    }

    constructor (maxRequests: nat, threads: nat)
      ensures Valid() && state == Initial(maxRequests, threads) && fresh(Footprint())
    {
      pool := new List<int>();
      this.maxRequests := maxRequests;
      state := Initial(maxRequests, threads);
      new;
      InitialInv(maxRequests, threads);
    }

    /** What the main thread does with its connection while it has the lock. */
    method Enter(conn: int, ghost wake: nat) returns (waits: bool)
      requires Valid() && state.producer == Trying(conn) && Allowed(state, Step.Enter(wake))
      modifies this, pool, pool.linkers
      ensures Valid() && state == Next(old(state), Step.Enter(wake))
      ensures waits == state.producer.Asleep? == (|old(state).pool| == maxRequests)
      ensures state.pool == if waits then old(state).pool else old(state).pool + [conn]
      ensures |state.workers| == |old(state).workers| && forall w :: 0 <= w < |state.workers| ==>
                state.workers[w] == if !waits && w == wake && old(state).workers[w] == Sleeping then Looking
                                    else old(state).workers[w]
      ensures fresh(Footprint() - old(Footprint()))
    {
      NextKeeps(state, Step.Enter(wake));
      state := Next(state, Step.Enter(wake));
      if pool.size == maxRequests {
        return true;
      }
      pool.Push(conn);
      return false;
    }

    /** What a worker does while it has the lock: it waits or gets a connection. */
    method Take(w: nat) returns (conn: Option<int>)
      requires Valid() && Allowed(state, Step.Take(w))
      modifies this, pool, pool.linkers
      ensures Valid() && state == Next(old(state), Step.Take(w))
      ensures state.workers[w] == if conn.Some? then Serving(conn.value) else Sleeping
      ensures conn == if old(state).pool == [] then None else Some(old(state).pool[0])
      ensures fresh(Footprint() - old(Footprint()))
    {
      NextKeeps(state, Step.Take(w));
      state := Next(state, Step.Take(w));
      if pool.size == 0 {
        return None;
      }
      var top := pool.Top();
      pool.Pop();
      return Some(top);
    }

    /** What happens without the lock: the list is not touched. */
    ghost method Elsewhere(step: Step)
      requires Valid() && Allowed(state, step) && !step.Enter? && !step.Take?
      modifies this`state
      ensures Valid() && state == Next(old(state), step) && Footprint() == old(Footprint())
    {
      NextKeeps(state, step);
      state := Next(state, step);
    }

    /** One step of the monitor; `conn` is what the main thread holds, `taken` what a worker
        gets. */
    method Perform(step: Step, conn: int) returns (taken: Option<int>)
      requires Valid() && Allowed(state, step) && (step.Enter? ==> state.producer == Trying(conn))
      modifies Footprint()
      ensures Valid() && state == Next(old(state), step) && fresh(Footprint() - old(Footprint()))
      ensures state.taken == old(state).taken + if taken.Some? then [taken.value] else []
    {
      taken := None;
      match step {
        case Enter(wake) =>
          var waits := Enter(conn, wake);
        case Take(w) =>
          taken := Take(w);
        case _ =>
          Elsewhere(step);
      }
    }
  }

  /** A whole run on the stored pool: it ends in the state of the run, and the workers have
      got what the run says they take. */
  method Perform(maxRequests: nat, threads: nat, steps: seq<Step>) returns (pool: RequestPool, taken: seq<int>)
    requires IsRun(Initial(maxRequests, threads), steps)
    ensures pool.Valid() && fresh(pool.Footprint())
    ensures pool.state == After(Initial(maxRequests, threads), steps) && taken == pool.state.taken
  {
    hide Inv, List.Valid;
    pool := new RequestPool(maxRequests, threads);
    taken := [];
    var conn := 0;
    for k := 0 to |steps|
      invariant pool.Valid() && fresh(pool.Footprint())
      invariant pool.state == After(Initial(maxRequests, threads), steps[..k]) && taken == pool.state.taken
      invariant pool.state.producer.Idle? || pool.state.producer.conn == conn
    {
      StepOfRun(Initial(maxRequests, threads), steps, k);
      if steps[k].Arrive? {
        conn := steps[k].conn;
      }
      var got := pool.Perform(steps[k], conn);
      if got.Some? {
        taken := taken + [got.value];
      }
    }
    assert steps[..|steps|] == steps;
  }
}
