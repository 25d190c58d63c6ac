/** webserver/server_thread.c: many requests against one cache, in any order. The cache lock
    makes lookup and insertion single steps; between them a request sends its file. */
module WebRequests {
  import opened Sequences
  import opened WebCache

  /** What a request knows of its file at the lookup: the size counts as none. */
  function Unread(name: string): File {
    File(name, "", 0)
  }

  /** A request between its lookup and its insertion. After a hit its data are those of the
      block; after a miss only the name is known until the file has been read. */
  datatype Flight = Flight(data: File, hit: bool)

  datatype Server = Server(cache: Cache, flights: map<nat, Flight>)

  datatype Step =
    | Lookup(id: nat, name: string)
    | Insert(id: nat, file: File)
    /** a miss whose file cannot be read */
    | GiveUp(id: nat)

  ghost predicate Allowed(s: Server, step: Step) {
    match step
    case Lookup(id, name) => id !in s.flights
    case Insert(id, file) =>
      id in s.flights && if s.flights[id].hit then file == s.flights[id].data else file.name == s.flights[id].data.name
    case GiveUp(id) => id in s.flights && !s.flights[id].hit
  }

  function Next(s: Server, step: Step): Server {
    match step
    case Lookup(id, name) =>
      var answer := LookedUp(s.cache, Unread(name));
      Server(answer.cache,
             s.flights[id := if answer.found.Some? then Flight(answer.found.value, true) else Flight(Unread(name),
                 false)])
    case Insert(id, file) => Server(Inserted(s.cache, file).cache, s.flights - {id})
    case GiveUp(id) => s.(flights := s.flights - {id})
  }

  /** The requests that are using the file of that name. */
  function Users(flights: map<nat, Flight>, name: string): set<nat> {
    set id | id in flights && flights[id].hit && flights[id].data.name == name
  }

  /** The pin count of every block is the number of its users, and what a request is sending
      is still in the cache. */
  ghost predicate Inv(s: Server) {
    && CacheInv(s.cache)
    && (forall b :: b in s.cache.blocks ==> b.pins == |Users(s.flights, b.file.name)|)
    && (forall id :: id in s.flights && s.flights[id].hit ==> Has(s.cache.blocks, s.flights[id].data))
  }

  ghost predicate Has(blocks: seq<Block>, file: File) {
    exists k :: 0 <= k < |blocks| && blocks[k].file == file
  }

  /** A request that missed inserts a file that another has inserted meanwhile. */
  ghost predicate Overlaps(s: Server, step: Step) {
    && step.Insert? && step.id in s.flights && !s.flights[step.id].hit
    && step.file.size < s.cache.total / 2 && At(s.cache.blocks, step.file.name) < |s.cache.blocks|
  }

  // ---- lookup ----

  lemma UsersStart(flights: map<nat, Flight>, id: nat, f: Flight, name: string)
    requires id !in flights
    ensures Users(flights[id := f], name) == Users(flights, name) + (if f.hit && f.data.name == name then {id} else {})
    ensures |Users(flights[id := f], name)| == |Users(flights, name)| + (if f.hit && f.data.name == name then 1 else 0)
  {}

  lemma UsersEnd(flights: map<nat, Flight>, id: nat, name: string)
    requires id in flights
    ensures Users(flights - {id}, name) == Users(flights, name) - {id}
    ensures |Users(flights - {id}, name)| ==
              |Users(flights, name)| - (if flights[id].hit && flights[id].data.name == name then 1 else 0)
  {}

  /** The block the table finds is the one with the file. */
  lemma FoundIs(blocks: seq<Block>, file: File)
    requires NamesApart(blocks) && Has(blocks, file)
    ensures var k := At(blocks, file.name); k < |blocks| && blocks[k].file == file
  {}

  lemma LookupKeeps(s: Server, id: nat, name: string)
    requires Inv(s) && id !in s.flights
    ensures Inv(Next(s, Lookup(id, name)))
  {
    hide CacheInv, Users, At, LookedUp, Has;
    var blocks, data := s.cache.blocks, Unread(name);
    var after := Next(s, Lookup(id, name));
    LookedUpOk(s.cache, data);
    forall n { UsersStart(s.flights, id, after.flights[id], n); }
    if LookedUp(s.cache, data).found.Some? {
      var k := At(blocks, name);
      assert blocks[k] in blocks;
      forall f | Has(blocks, f) ensures Has(after.cache.blocks, f) {
        HasMoved(blocks, k, blocks[k].(pins := blocks[k].pins + 1), f);
      }
      HasAt(blocks, k);
    }
  }

  lemma HasAt(blocks: seq<Block>, k: nat)
    requires k < |blocks|
    ensures Has(blocks, blocks[k].file)
  {}

  lemma HasMoved(blocks: seq<Block>, k: nat, b: Block, f: File)
    requires k < |blocks| && b.file == blocks[k].file && Has(blocks, f)
    ensures Has(blocks[k := b], f) && Has(MovedToTop(blocks[k := b], k), f)
    ensures Has(MovedToTop(blocks[k := b], k), b.file)
  {
    var i :| 0 <= i < |blocks| && blocks[i].file == f;
    assert blocks[k := b][i].file == f;
    var r := MovedToTop(blocks[k := b], k);
    assert r[if i < k then i + 1 else if i == k then 0 else i].file == f;
    assert r[0].file == b.file;
  }

  /** A request gets the file it has asked for, exactly if that is listed (and the cache has
      room for any file at all); the other requests are not touched. */
  lemma LookupIs(s: Server, id: nat, name: string)
    requires Inv(s) && id !in s.flights
    ensures var f := Next(s, Lookup(id, name)).flights;
            && f.Keys == s.flights.Keys + {id} && f[id].data.name == name
            && (forall i :: i in s.flights ==> f[i] == s.flights[i])
            && (f[id].hit <==> 0 < s.cache.total / 2 && exists b :: b in s.cache.blocks && b.file.name == name)
            && (f[id].hit ==> Has(s.cache.blocks, f[id].data))
  {
    hide Inv, LookedUp, Has;
    Sound(s);
    LookedUpIs(s.cache, Unread(name));
    var blocks, found := s.cache.blocks, LookedUp(s.cache, Unread(name)).found;
    if found.Some? {
      var b :| b in blocks && b.file.name == name;
      var j :| 0 <= j < |blocks| && blocks[j] == b;
      assert found.value == blocks[j].file;
      HasAt(blocks, j);
    }
  }

  lemma Sound(s: Server)
    requires Inv(s)
    ensures CacheInv(s.cache)
  {}

  // ---- insertion ----

  lemma MissKeeps(s: Server, id: nat, file: File)
    requires Inv(s) && id in s.flights && !s.flights[id].hit && !Overlaps(s, Insert(id, file))
    ensures Inv(Next(s, Insert(id, file)))
  {
    hide CacheInv, Inserted, Users;
    forall n { UsersEnd(s.flights, id, n); }
    var blocks := s.cache.blocks;
    var after := Inserted(s.cache, file).cache;
    if At(blocks, file.name) == |blocks| {
      AbsentInsertion(s.cache, file);
      NoUsers(s, file.name);
      forall i | i in s.flights && s.flights[i].hit ensures Has(after.blocks, s.flights[i].data) {
        InUse(s, i);
        var b :| b in blocks && b.pins > 0 && b.file == s.flights[i].data;
        var k :| 0 <= k < |after.blocks| && after.blocks[k] == b;
      }
    } else {
      assert after == s.cache by { assert Inserted(s.cache, file).cache == s.cache by { TooLarge(s.cache, file); } }
    }
  }

  lemma NoUsers(s: Server, name: string)
    requires Inv(s) && At(s.cache.blocks, name) == |s.cache.blocks|
    ensures Users(s.flights, name) == {}
  {
    forall id | id in s.flights && s.flights[id].hit ensures s.flights[id].data.name != name {
      assert Has(s.cache.blocks, s.flights[id].data);
    }
  }

  /** The block a request is sending is pinned. */
  lemma InUse(s: Server, id: nat)
    requires Inv(s) && id in s.flights && s.flights[id].hit
    ensures exists b :: b in s.cache.blocks && b.pins > 0 && b.file == s.flights[id].data
  {
    var k :| 0 <= k < |s.cache.blocks| && s.cache.blocks[k].file == s.flights[id].data;
    var b := s.cache.blocks[k];
    assert b in s.cache.blocks && id in Users(s.flights, b.file.name);
  }

  lemma HitKeeps(s: Server, id: nat)
    requires Inv(s) && id in s.flights && s.flights[id].hit
    ensures Inv(Next(s, Insert(id, s.flights[id].data)))
    ensures Inserted(s.cache, s.flights[id].data).found
  {
    hide Sum, Kept, Users, NamesApart, Has, MovedToTop, Evicted;
    var file := s.flights[id].data;
    forall n { UsersEnd(s.flights, id, n); }
    var blocks, k := s.cache.blocks, At(s.cache.blocks, file.name);
    FoundIs(blocks, file) by { assert NamesApart(blocks); }
    var b := blocks[k];
    var less := b.(pins := b.pins - 1);
    assert b in blocks;
    ReplacedSums(blocks, k, less);
    forall f | Has(blocks, f) ensures Has(blocks[k := less], f) {
      HasMoved(blocks, k, less, f);
    }
  }

  /** An insertion that overlaps no other finds the file it brings either not listed or
      pinned, which is all the stored cache asks of its caller. */
  lemma ListedIsPinned(s: Server, id: nat, file: File)
    requires Inv(s) && Allowed(s, Insert(id, file)) && !Overlaps(s, Insert(id, file)) && file.size < s.cache.total / 2
    ensures forall b :: b in s.cache.blocks && b.file.name == file.name ==> b.pins > 0
  {
    if s.flights[id].hit {
      InUse(s, id);
    }
  }

  /** An insertion that overlaps another takes a pin away that it never set. */
  lemma OverlapBreaks(s: Server, id: nat, file: File)
    requires Inv(s) && Overlaps(s, Insert(id, file))
    ensures !Inv(Next(s, Insert(id, file)))
  {
    hide Users;
    var blocks, k := s.cache.blocks, At(s.cache.blocks, file.name);
    var b := blocks[k];
    UsersEnd(s.flights, id, b.file.name);
    assert b in blocks;
    var after := Next(s, Insert(id, file)).cache.blocks;
    assert after[k] in after && after[k].pins == b.pins - 1;
  }

  /** Every step keeps the invariant, except exactly the insertion that overlaps another. */
  lemma NextKeepsIff(s: Server, step: Step)
    requires Inv(s) && Allowed(s, step)
    ensures Inv(Next(s, step)) <==> !Overlaps(s, step)
  {
    hide Inv;
    match step
    case Lookup(id, name) => LookupKeeps(s, id, name);
    case Insert(id, file) =>
      if s.flights[id].hit { HitKeeps(s, id); }
      else if Overlaps(s, step) { OverlapBreaks(s, id, file); }
      else { MissKeeps(s, id, file); }
    case GiveUp(id) => GiveUpKeeps(s, id);
  }

  lemma GiveUpKeeps(s: Server, id: nat)
    requires Inv(s) && id in s.flights && !s.flights[id].hit
    ensures Inv(Next(s, GiveUp(id)))
  {
    hide Users;
    forall n { UsersEnd(s.flights, id, n); }
  }

  // ---- whole runs ----

  function Initial(total: nat): Server {
    Server(Cache([], 0, 0, total), map[])
  }

  /** The state after a number of steps. */
  function After(s: Server, steps: seq<Step>): Server
    decreases |steps|
  {
    if steps == [] then s else Next(After(s, steps[..|steps| - 1]), steps[|steps| - 1])
  }

  /** Steps that can happen one after the other, no insertion overlapping another. */
  ghost predicate IsRun(s: Server, steps: seq<Step>)
    decreases |steps|
  {
    steps == [] ||
    var n := |steps| - 1;
    IsRun(s, steps[..n]) && Allowed(After(s, steps[..n]), steps[n]) && !Overlaps(After(s, steps[..n]), steps[n])
  }

  /** A run can be made step by step. */
  lemma {:induction false} StepOfRun(s: Server, steps: seq<Step>, k: nat)
    requires IsRun(s, steps) && k < |steps|
    ensures IsRun(s, steps[..k])
    ensures Allowed(After(s, steps[..k]), steps[k]) && !Overlaps(After(s, steps[..k]), steps[k])
    ensures After(s, steps[..k + 1]) == Next(After(s, steps[..k]), steps[k])
    decreases |steps|
  {
    hide Next, Allowed, Overlaps;
    var n := |steps| - 1;
    if k < n {
      StepOfRun(s, steps[..n], k);
      assert steps[..n][..k] == steps[..k] && steps[..n][..k + 1] == steps[..k + 1];
    } else {
      assert steps[..k + 1] == steps;
    }
  }

  /** The files that reading requests have inserted. */
  ghost predicate WasInserted(steps: seq<Step>, file: File) {
    exists n :: 0 <= n < |steps| && steps[n].Insert? && steps[n].file == file
  }

  /** Every cached file has been inserted. */
  ghost predicate FilesFrom(blocks: seq<Block>, steps: seq<Step>) {
    forall b :: b in blocks ==> WasInserted(steps, b.file)
  }

  /** In every run from the empty cache the invariant holds, and all the cache holds, so
      all that a hit sends, was inserted under its name before. */
  lemma {:induction false} RunKeeps(total: nat, steps: seq<Step>)
    requires IsRun(Initial(total), steps)
    ensures var s := After(Initial(total), steps);
            Inv(s) && s.cache.total == total && FilesFrom(s.cache.blocks, steps)
    decreases |steps|
  {
    hide Inv, Next, FilesFrom;
    if steps != [] {
      var n := |steps| - 1;
      var front, s := steps[..n], After(Initial(total), steps[..n]);
      assert steps == front + [steps[n]];
      RunKeeps(total, front);
      NextKeepsIff(s, steps[n]);
      StepFilesFrom(s, steps[n], front);
    } else {
      InitialInv(total);
    }
  }

  lemma InitialInv(total: nat)
    ensures Inv(Initial(total)) && FilesFrom(Initial(total).cache.blocks, [])
  {}

  lemma StepFilesFrom(s: Server, step: Step, front: seq<Step>)
    requires Inv(s) && Allowed(s, step) && FilesFrom(s.cache.blocks, front)
    ensures Next(s, step).cache.total == s.cache.total && FilesFrom(Next(s, step).cache.blocks, front + [step])
  {
    hide Inv, Next;
    StepFiles(s, step);
    forall file | WasInserted(front, file) || (step.Insert? && step.file == file)
      ensures WasInserted(front + [step], file)
    {
      if WasInserted(front, file) {
        var i :| 0 <= i < |front| && front[i].Insert? && front[i].file == file;
        assert (front + [step])[i] == front[i];
      } else {
        assert (front + [step])[|front|] == step;
      }
    }
  }

  /** A step brings no file into the cache but the one it inserts. */
  lemma StepFiles(s: Server, step: Step)
    requires Inv(s) && Allowed(s, step)
    ensures var r := Next(s, step).cache;
            && r.total == s.cache.total
            && forall b :: b in r.blocks ==> Has(s.cache.blocks, b.file) || (step.Insert? && step.file == b.file)
  {
    hide CacheInv, Evictable, Kept, Users, Survivors, FirstFree, Cut, Rotated;
    var blocks := s.cache.blocks;
    var after := Next(s, step).cache.blocks;
    forall b | b in after ensures Has(blocks, b.file) || (step.Insert? && step.file == b.file) {
      if step.Insert? && At(blocks, step.file.name) == |blocks| {
        AbsentInsertion(s.cache, step.file);
        if b in blocks {
          var i :| 0 <= i < |blocks| && blocks[i] == b;
        }
      } else {
        var i :| 0 <= i < |after| && after[i] == b;
        var k := if step.Lookup? then At(blocks, step.name) else 0;
        if after != blocks && step.Lookup? {
          assert blocks[if i == 0 then k else if i <= k then i - 1 else i].file == b.file;
        } else {
          assert blocks[i].file == b.file;
        }
      }
    }
  }

  lemma {:induction false} NoneKept(blocks: seq<Block>)
    requires forall b :: b in blocks ==> b.pins == 0
    ensures Kept(blocks) == []
  {
    if blocks != [] { NoneKept(blocks[1..]); }
  }

  /** When no request is under way nothing is pinned, and any file below half the cache can
      be inserted. */
  lemma QuietServer(s: Server, file: File)
    requires Inv(s) && s.flights == map[]
    ensures s.cache.pinned == 0 && forall b :: b in s.cache.blocks ==> b.pins == 0
    ensures At(s.cache.blocks, file.name) == |s.cache.blocks| && file.size < s.cache.total / 2 ==>
              Inserted(s.cache, file).found
  {
    forall b | b in s.cache.blocks ensures b.pins == 0 {
      assert Users(s.flights, b.file.name) == {};
    }
    NoneKept(s.cache.blocks);
    if At(s.cache.blocks, file.name) == |s.cache.blocks| {
      AbsentInsertion(s.cache, file);
    }
  }

  lemma OneMore(s: Server, steps: seq<Step>, step: Step)
    ensures After(s, steps + [step]) == Next(After(s, steps), step)
    ensures IsRun(s, steps + [step]) <==>
              IsRun(s, steps) && Allowed(After(s, steps), step) && !Overlaps(After(s, steps), step)
  {
    var more := steps + [step];
    assert more[..|more| - 1] == steps && more[|more| - 1] == step;
  }

  /** Two requests for one file, each looking it up before the other has inserted it: the
      second insertion breaks the invariant. */
  lemma OverlapRun(total: nat, file: File) returns (steps: seq<Step>)
    requires file.size < total / 2
    ensures IsRun(Initial(total), steps)
    ensures var s := After(Initial(total), steps);
            && Allowed(s, Insert(2, file)) && Overlaps(s, Insert(2, file)) && !Inv(Next(s, Insert(2, file)))
  {
    hide Inv, Next, Overlaps, Allowed, IsRun, After;
    var s0, a, b, c := Initial(total), Lookup(1, file.name), Lookup(2, file.name), Insert(1, file);
    var none: seq<Step> := [];
    NoSteps(s0);
    OneMore(s0, none, a);
    Missed(s0, 1, file);
    OneMore(s0, none + [a], b);
    Missed(Next(s0, a), 2, file);
    OneMore(s0, none + [a] + [b], c);
    Overlapping(Next(Next(s0, a), b), file);
    steps := none + [a] + [b] + [c];
    RunKeeps(total, steps);
    NextKeepsIff(After(s0, steps), Insert(2, file));
  }

  lemma NoSteps(s: Server)
    ensures After(s, []) == s && IsRun(s, [])
  {}

  lemma Missed(s: Server, id: nat, file: File)
    requires s.cache.blocks == [] && id !in s.flights
    ensures Allowed(s, Lookup(id, file.name)) && !Overlaps(s, Lookup(id, file.name))
    ensures Next(s, Lookup(id, file.name)) == Server(s.cache, s.flights[id := Flight(Unread(file.name), false)])
  {}

  lemma Overlapping(s: Server, file: File)
    requires s.cache == Cache([], 0, 0, s.cache.total) && file.size < s.cache.total / 2
    requires s.flights == map[1 := Flight(Unread(file.name), false), 2 := Flight(Unread(file.name), false)]
    ensures Allowed(s, Insert(1, file)) && !Overlaps(s, Insert(1, file))
    ensures var s' := Next(s, Insert(1, file)); Allowed(s', Insert(2, file)) && Overlaps(s', Insert(2, file))
  {}
}
