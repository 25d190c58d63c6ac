/** webserver/server_thread.c: runs of requests on the cache as it is stored. */
module WebServer {
  import WebList
  import opened WebTable
  import opened WebCache
  import opened WebRequests
  import opened WebLru

  /** The step adds a pair to the table. */
  predicate AddsAt(s: Server, step: Step) {
    step.Insert? && Adds(s.cache, step.file)
  }

  /** How many pairs the steps of a run add to the table. */
  function Additions(s: Server, steps: seq<Step>): nat
    decreases |steps|
  {
    if steps == [] then 0 else
      var n := |steps| - 1;
      Additions(s, steps[..n]) + if AddsAt(After(s, steps[..n]), steps[n]) then 1 else 0
  }

  lemma {:induction false} AdditionsBefore(s: Server, steps: seq<Step>, k: nat)
    requires k < |steps|
    ensures Additions(s, steps[..k + 1]) ==
              Additions(s, steps[..k]) + (if AddsAt(After(s, steps[..k]), steps[k]) then 1 else 0)
    ensures Additions(s, steps[..k + 1]) <= Additions(s, steps)
    decreases |steps|
  {
    hide After, AddsAt;
    var n := |steps| - 1;
    if k < n {
      AdditionsBefore(s, steps[..n], k);
      assert steps[..n][..k] == steps[..k] && steps[..n][..k + 1] == steps[..k + 1];
    } else {
      assert steps[..k + 1] == steps && steps[..n] == steps[..k];
    }
  }

  /** One step of a request on the stored cache. A lookup knows only the name of its file;
      after a hit the request goes on with the block it has found. */
  method Perform(cache: LruCache, flights: map<nat, Flight>, step: Step) returns (after: map<nat, Flight>)
    requires cache.Valid()
    requires var s := Server(cache.state, flights); Inv(s) && Allowed(s, step) && !Overlaps(s, step)
    requires AddsAt(Server(cache.state, flights), step) ==>
               2 * (cache.fileTable.bucketNumber + 1) < cache.fileTable.size
    modifies cache.Footprint()
    ensures cache.Valid() && fresh(cache.Footprint() - old(cache.Footprint()))
    ensures Server(cache.state, after) == Next(Server(old(cache.state), flights), step)
    ensures cache.fileTable.bucketNumber ==
              old(cache.fileTable.bucketNumber) + if AddsAt(Server(old(cache.state), flights), step) then 1 else 0
  {
    hide WebList.List.Valid, BucketBuffer.Valid, LookedUp, Inserted, CacheInv, LruCache.Agrees, Overlaps,
         Adds;
    match step {
      case Lookup(id, name) =>
        var found := cache.Lookup(Unread(name));
        after := flights[id := if found.Some? then Flight(found.value, true) else Flight(Unread(name), false)];
      case Insert(id, file) =>
        cache.Facts();
        if file.size < cache.state.total / 2 { ListedIsPinned(Server(cache.state, flights), id, file); }
        var ok := cache.Insert(file);
        after := flights - {id};
      case GiveUp(id) =>
        after := flights - {id};
    }
  }

  /** A whole run on a new stored cache whose table does not grow: fewer pairs are added than
      make it grow, however many requests there are. At its end list, table and
      counters stand for the cache of the run, and every request holds what the run gives
      it. */
  method Serve(total: nat, steps: seq<Step>) returns (cache: LruCache, flights: map<nat, Flight>)
    requires IsRun(Initial(total), steps) && 2 * Additions(Initial(total), steps) < INCREMENT_SIZE
    ensures cache.Valid() && fresh(cache.Footprint())
    ensures Server(cache.state, flights) == After(Initial(total), steps) && Inv(Server(cache.state, flights))
  {
    hide LruCache.Valid, Inv, Next, Allowed, Overlaps, IsRun, After, AddsAt;
    NoSteps(Initial(total));
    RunKeeps(total, steps);
    cache := new LruCache(total);
    flights := map[];
    for k := 0 to |steps|
      invariant cache.Valid() && fresh(cache.Footprint()) && cache.fileTable.size == INCREMENT_SIZE
      invariant Server(cache.state, flights) == After(Initial(total), steps[..k])
      invariant cache.fileTable.bucketNumber == Additions(Initial(total), steps[..k])
    {
      StepOfRun(Initial(total), steps, k);
      RunKeeps(total, steps[..k]);
      AdditionsBefore(Initial(total), steps, k);
      flights := Perform(cache, flights, steps[k]);
    }
    assert steps[..|steps|] == steps;
  }
}
