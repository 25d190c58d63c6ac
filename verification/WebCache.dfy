/** webserver/server_thread.c: the cache of files as a value. What lookup, eviction and
    insertion make of it, and what stays true while requests come and go. */
module WebCache {
  import opened Options
  import opened Sequences

  datatype File = File(name: string, buf: string, size: nat)

  /** A cached file with the number of requests that are using it. */
  datatype Block = Block(file: File, pins: int)

  /** The blocks are in order of use, last used first. */
  datatype Cache = Cache(blocks: seq<Block>, current: int, pinned: int, total: nat)

  // ---- sums over blocks ----

  function Sum(blocks: seq<Block>): nat {
    if blocks == [] then 0 else blocks[0].file.size + Sum(blocks[1..])
  }

  /** The blocks in use, in order. */
  function Kept(blocks: seq<Block>): seq<Block> {
    if blocks == [] then [] else if blocks[0].pins > 0 then [blocks[0]] + Kept(blocks[1..]) else Kept(blocks[1..])
  }

  lemma {:induction false} KeptSum(blocks: seq<Block>)
    ensures Sum(Kept(blocks)) <= Sum(blocks) && |Kept(blocks)| <= |blocks|
    ensures forall i :: 0 <= i < |Kept(blocks)| ==> Kept(blocks)[i].pins > 0 && Kept(blocks)[i] in blocks
    ensures forall b :: b in blocks && b.pins > 0 ==> b in Kept(blocks)
  {
    if blocks != [] {
      KeptSum(blocks[1..]);
      if blocks[0].pins > 0 {
        assert ([blocks[0]] + Kept(blocks[1..]))[1..] == Kept(blocks[1..]);
      }
    }
  }

  /** The bytes that eviction could free. */
  function Evictable(blocks: seq<Block>): nat {
    KeptSum(blocks);
    Sum(blocks) - Sum(Kept(blocks))
  }

  lemma {:induction false} SumAppend(a: seq<Block>, b: seq<Block>)
    ensures Sum(a + b) == Sum(a) + Sum(b)
    ensures Kept(a + b) == Kept(a) + Kept(b)
    ensures Evictable(a + b) == Evictable(a) + Evictable(b)
  {
    KeptAppend(a, b);
    SumOnly(a, b);
    SumOnly(Kept(a), Kept(b));
  }

  lemma {:induction false} SumOnly(a: seq<Block>, b: seq<Block>)
    ensures Sum(a + b) == Sum(a) + Sum(b)
  {
    if a == [] {
      assert a + b == b;
    } else {
      assert (a + b)[0] == a[0] && (a + b)[1..] == a[1..] + b;
      SumOnly(a[1..], b);
    }
  }

  lemma {:induction false} KeptAppend(a: seq<Block>, b: seq<Block>)
    ensures Kept(a + b) == Kept(a) + Kept(b)
  {
    if a == [] {
      assert a + b == b;
    } else {
      assert (a + b)[0] == a[0] && (a + b)[1..] == a[1..] + b;
      KeptAppend(a[1..], b);
    }
  }

  lemma SumOne(b: Block)
    ensures Sum([b]) == b.file.size && Kept([b]) == (if b.pins > 0 then [b] else [])
    ensures Evictable([b]) == if b.pins > 0 then 0 else b.file.size
  {
    assert Kept([b][1..]) == [];
  }

  // ---- what the operations do ----

  /** The position of the block with the name; the length if there is none. */
  function At(blocks: seq<Block>, name: string): (k: nat)
    ensures k <= |blocks| && forall i :: 0 <= i < k ==> blocks[i].file.name != name
    ensures k < |blocks| ==> blocks[k].file.name == name
  {
    if blocks == [] || blocks[0].file.name == name then 0 else 1 + At(blocks[1..], name)
  }

  datatype Answer<T> = Answer(cache: Cache, found: T)

  /** A file that was found is used by one more request and is the last used now. A file of
      half the cache or more is never looked for. */
  function LookedUp(c: Cache, data: File): Answer<Option<File>> {
    var k := At(c.blocks, data.name);
    if data.size >= c.total / 2 || k == |c.blocks| then Answer(c, None) else
      var b := c.blocks[k];
      var used := c.blocks[k := b.(pins := b.pins + 1)];
      Answer(c.(blocks := MovedToTop(used, k), pinned := if b.pins == 0 then c.pinned + 1 else c.pinned), Some(b.file))
  }

  /** Where an eviction stops: it takes the free blocks at or behind this position. */
  function Cut(blocks: seq<Block>, amount: int): (i: nat)
    ensures i <= |blocks|
  {
    if amount <= 0 || blocks == [] then |blocks| else
      var n := |blocks| - 1;
      Cut(blocks[..n], if blocks[n].pins > 0 then amount else amount - blocks[n].file.size)
  }

  /** The blocks in use behind a position come to the front, the free ones are gone. */
  function Survivors(blocks: seq<Block>, i: nat): seq<Block>
    requires i <= |blocks|
  {
    Kept(blocks[i..]) + blocks[..i]
  }

  /** The position of the first block that is not in use. */
  function FirstFree(blocks: seq<Block>): (i: nat)
    ensures i <= |blocks| && forall k :: 0 <= k < i ==> blocks[k].pins > 0
    ensures i < |blocks| ==> blocks[i].pins <= 0
  {
    if blocks == [] || blocks[0].pins <= 0 then 0 else 1 + FirstFree(blocks[1..])
  }

  /** The last block moved to the front. */
  function Rotated(blocks: seq<Block>): seq<Block> {
    if blocks == [] then [] else MovedToTop(blocks, |blocks| - 1)
  }

  /** Eviction of a number of bytes. When all free blocks together are not enough they are
      gone nevertheless, and one more block has changed its place. */
  function Evicted(c: Cache, amount: int): Answer<bool> {
    if amount > c.total || amount <= 0 then Answer(c, false)
    else if Evictable(c.blocks) >= amount then
      var i := Cut(c.blocks, amount);
      Answer(c.(blocks := Survivors(c.blocks, i), current := c.current - Evictable(c.blocks[i..])), true)
    else
      var i := FirstFree(c.blocks);
      Answer(c.(blocks := Rotated(Survivors(c.blocks, i)), current := c.current - Evictable(c.blocks)), false)
  }

  /** A new file goes to the front if there is room or room can be made. A file that is
      there already has one user less. */
  function Inserted(c: Cache, file: File): Answer<bool> {
    var k := At(c.blocks, file.name);
    if file.size >= c.total / 2 then Answer(c, false)
    else if k < |c.blocks| then
      var b := c.blocks[k];
      Answer(c.(blocks := c.blocks[k := b.(pins := b.pins - 1)],
                pinned := if b.pins == 1 then c.pinned - 1 else c.pinned), true)
    else if c.total - c.current < file.size then
      var e := Evicted(c, file.size);
      if e.found then Answer(Added(e.cache, file), true) else e
    else Answer(Added(c, file), true)
  }

  function Added(c: Cache, file: File): Cache {
    c.(blocks := [Block(file, 0)] + c.blocks, current := c.current + file.size)
  }

  // ---- what is always true of the cache ----

  ghost predicate NamesApart(blocks: seq<Block>) {
    forall i, j :: 0 <= i < j < |blocks| ==> blocks[i].file.name != blocks[j].file.name
  }

  /** The counters tell the truth, and no file is half the cache or more. */
  ghost predicate CacheInv(c: Cache) {
    && NamesApart(c.blocks)
    && (forall b :: b in c.blocks ==> 0 <= b.pins && b.file.size < c.total / 2)
    && c.current == Sum(c.blocks) <= c.total
    && c.pinned == |Kept(c.blocks)|
  }

  // ---- eviction ----

  lemma NothingThere()
    ensures Sum([]) == 0 && Evictable([]) == 0
  {}

  /** Taking the tail first, eviction stops as soon as it has enough, at a free block. */
  lemma {:induction false} CutIs(blocks: seq<Block>, amount: int)
    requires 0 < amount <= Evictable(blocks)
    ensures var i := Cut(blocks, amount);
            i < |blocks| && blocks[i].pins <= 0 && Evictable(blocks[i..]) >= amount > Evictable(blocks[i + 1..])
  {
    hide Sum, Kept, Evictable;
    var n := |blocks| - 1;
    NothingThere();
    var last := blocks[n];
    assert blocks == blocks[..n] + [last];
    SumAppend(blocks[..n], [last]);
    SumOne(last);
    var rest := if last.pins > 0 then amount else amount - last.file.size;
    var i := Cut(blocks[..n], rest);
    assert Cut(blocks, amount) == i && (rest <= 0 ==> i == n);
    hide Cut;
    if rest <= 0 {
      assert blocks[n..] == [last] && blocks[n + 1..] == [];
    } else {
      CutIs(blocks[..n], rest);
      forall j | i <= j <= i + 1 ensures Evictable(blocks[j..]) == Evictable(blocks[..n][j..]) + Evictable([last]) {
        assert blocks[j..] == blocks[..n][j..] + [last];
        SumAppend(blocks[..n][j..], [last]);
      }
    }
  }

  lemma SurvivorsSums(blocks: seq<Block>, i: nat)
    requires i <= |blocks|
    ensures Sum(Survivors(blocks, i)) == Sum(blocks) - Evictable(blocks[i..])
    ensures Kept(Survivors(blocks, i)) == Kept(blocks[i..]) + Kept(blocks[..i])
    ensures |Kept(Survivors(blocks, i))| == |Kept(blocks)|
  {
    var a, b := blocks[..i], blocks[i..];
    assert blocks == a + b;
    SumAppend(a, b);
    SumAppend(Kept(b), a);
    KeptKept(b);
    assert Evictable(b) == Sum(b) - Sum(Kept(b));
    hide Sum, Kept, Evictable;
  }

  /** Exactly the free blocks from the position on are gone. */
  lemma SurvivorsAre(blocks: seq<Block>, i: nat)
    requires i <= |blocks| && NamesApart(blocks)
    ensures NamesApart(Survivors(blocks, i))
    ensures forall b :: b in Survivors(blocks, i) <==> b in blocks[..i] || (b in blocks[i..] && b.pins > 0)
    ensures forall k :: 0 <= k < |blocks| ==> (blocks[k] in Survivors(blocks, i) <==> (k < i || blocks[k].pins > 0))
  {
    hide Sum, Kept;
    var a, b := blocks[..i], blocks[i..];
    KeptSum(b);
    KeptApart(b);
    forall x, y | 0 <= x < |Kept(b)| && 0 <= y < i ensures Kept(b)[x].file.name != blocks[y].file.name {
      var z :| 0 <= z < |b| && b[z] == Kept(b)[x];
      assert b[z] == blocks[i + z];
    }
    forall k | i <= k < |blocks| ensures blocks[k] in b && blocks[k] !in a {
      assert blocks[k] == b[k - i];
    }
  }

  lemma {:induction false} KeptKept(blocks: seq<Block>)
    ensures Kept(Kept(blocks)) == Kept(blocks)
  {
    if blocks != [] {
      KeptKept(blocks[1..]);
      if blocks[0].pins > 0 {
        assert ([blocks[0]] + Kept(blocks[1..]))[1..] == Kept(blocks[1..]);
      }
    }
  }

  lemma {:induction false} KeptApart(blocks: seq<Block>)
    requires NamesApart(blocks)
    ensures NamesApart(Kept(blocks))
  {
    if blocks != [] {
      KeptApart(blocks[1..]);
      KeptSum(blocks[1..]);
    }
  }

  /** Blocks all in use have nothing to evict. */
  lemma {:induction false} AllInUse(blocks: seq<Block>)
    requires forall k :: 0 <= k < |blocks| ==> blocks[k].pins > 0
    ensures Kept(blocks) == blocks && Evictable(blocks) == 0
  {
    if blocks != [] { AllInUse(blocks[1..]); }
  }

  /** Moving a block changes no sum. */
  lemma MovedSums(blocks: seq<Block>, k: nat)
    requires k < |blocks|
    ensures var r := MovedToTop(blocks, k);
            && Sum(r) == Sum(blocks) && |Kept(r)| == |Kept(blocks)|
            && (NamesApart(blocks) ==> NamesApart(r)) && forall b :: b in r <==> b in blocks
  {
    var a, x, b := blocks[..k], [blocks[k]], blocks[k + 1..];
    assert blocks == a + (x + b) && MovedToTop(blocks, k) == x + (a + b);
    SumAppend(x, b);
    SumAppend(a, x + b);
    SumAppend(a, b);
    SumAppend(x, a + b);
  }

  /** A block with another pin count in its place. */
  lemma ReplacedSums(blocks: seq<Block>, k: nat, b: Block)
    requires k < |blocks| && b.file == blocks[k].file && NamesApart(blocks)
    ensures var r := blocks[k := b];
            && NamesApart(r) && Sum(r) == Sum(blocks)
            && |Kept(r)| == |Kept(blocks)| - (if blocks[k].pins > 0 then 1 else 0) + (if b.pins > 0 then 1 else 0)
            && forall x :: x in r <==> x == b || (x in blocks && x.file.name != b.file.name)
  {
    var front, back := blocks[..k], blocks[k + 1..];
    var was := blocks[k];
    assert blocks == front + ([was] + back) && blocks[k := b] == front + ([b] + back);
    forall x | x in [was, b] ensures Sum(front + ([x] + back)) == Sum(front) + x.file.size + Sum(back)
                                   && |Kept(front + ([x] + back))| ==
                                        |Kept(front)| + |Kept(back)| + (if x.pins > 0 then 1 else 0) {
      SumAppend([x], back);
      SumAppend(front, [x] + back);
      SumOne(x);
    }
    assert was in [was, b] && b in [was, b];
    hide Sum, Kept, Evictable;
    forall x | x in blocks && x.file.name != b.file.name ensures x in blocks[k := b] {
      var i :| 0 <= i < |blocks| && blocks[i] == x;
      assert blocks[k := b][i] == x;
    }
  }

  /** An eviction that is asked for no more than the cache holds succeeds exactly if the
      free blocks are enough; it keeps all blocks in use and all that is true of the cache,
      and on success there is room for the bytes asked for. */
  lemma EvictedKeeps(c: Cache, amount: int)
    requires CacheInv(c) && 0 < amount <= c.current
    ensures var e := Evicted(c, amount);
            && CacheInv(e.cache) && e.cache.total == c.total && e.cache.pinned == c.pinned
            && (e.found <==> Evictable(c.blocks) >= amount)
            && (e.found ==> e.cache.current <= c.current - amount)
            && (forall b :: b in e.cache.blocks ==> b in c.blocks)
            && (forall b :: b in c.blocks && b.pins > 0 ==> b in e.cache.blocks)
            && (!e.found ==> e.cache.blocks != [] && forall b :: b in e.cache.blocks ==> b.pins > 0)
  {
    hide Sum, Kept, Evictable, NamesApart, Survivors, Cut, MovedToTop;
    KeptSum(c.blocks);
    if Evictable(c.blocks) >= amount {
      CutIs(c.blocks, amount);
      var i := Cut(c.blocks, amount);
      SurvivorsAre(c.blocks, i);
      SurvivorsSums(c.blocks, i);
      assert c.blocks == c.blocks[..i] + c.blocks[i..];
    } else {
      NoneFree(c.blocks);
      var left := Survivors(c.blocks, FirstFree(c.blocks));
      MovedSums(left, |left| - 1);
    }
  }

  /** What remains when every free block is gone. */
  lemma NoneFree(blocks: seq<Block>)
    requires NamesApart(blocks)
    ensures var left := Survivors(blocks, FirstFree(blocks));
            && NamesApart(left) && Sum(left) == Sum(blocks) - Evictable(blocks) && |Kept(left)| == |Kept(blocks)|
            && (Evictable(blocks) < Sum(blocks) ==> left != [])
            && forall b :: b in left <==> b in blocks && b.pins > 0
  {
    var i := FirstFree(blocks);
    var a, b := blocks[..i], blocks[i..];
    assert blocks == a + b;
    SumAppend(a, b);
    AllInUse(a);
    SurvivorsAre(blocks, i);
    SurvivorsSums(blocks, i);
    assert Sum([]) == 0;
    hide Sum, Kept, Evictable, NamesApart, Survivors;
  }

  /** A new block in a cache with room. */
  lemma AddedKeeps(c: Cache, file: File)
    requires CacheInv(c) && At(c.blocks, file.name) == |c.blocks|
    requires file.size < c.total / 2 && file.size <= c.total - c.current
    ensures CacheInv(Added(c, file))
    ensures forall b :: b in Added(c, file).blocks <==> b == Block(file, 0) || b in c.blocks
  {
    assert ([Block(file, 0)] + c.blocks)[1..] == c.blocks;
  }

  /** The position at which the free blocks from the tail on are first enough. */
  ghost predicate Suffices(blocks: seq<Block>, amount: int, i: nat) {
    && i < |blocks| && blocks[i].pins <= 0
    && Evictable(blocks[i..]) >= amount > Evictable(blocks[i + 1..])
  }

  /** What an eviction leaves: without enough free blocks only the blocks in use; otherwise
      all before the position from which on the free blocks are enough, and of those behind
      it the ones in use, which have come to the front. */
  lemma EvictedIs(c: Cache, amount: int)
    requires CacheInv(c) && 0 < amount <= c.current
    ensures var e := Evicted(c, amount);
            && (e.found ==> exists i: nat :: Suffices(c.blocks, amount, i)
                              && e.cache.blocks == Kept(c.blocks[i..]) + c.blocks[..i])
            && (!e.found ==> forall b :: b in e.cache.blocks <==> b in c.blocks && b.pins > 0)
  {
    EvictedKeeps(c, amount);
    if Evictable(c.blocks) >= amount {
      CutIs(c.blocks, amount);
      assert Suffices(c.blocks, amount, Cut(c.blocks, amount));
    }
    hide Sum, Kept, Evictable, NamesApart, Cut, Suffices, FirstFree, MovedToTop;
  }

  /** The insertion of a file that is not in the cache: it is added, evicting free blocks
      if need be, or else nothing is added; the blocks in use all stay. */
  lemma AbsentInsertion(c: Cache, file: File)
    requires CacheInv(c) && At(c.blocks, file.name) == |c.blocks|
    ensures var r := Inserted(c, file);
            && CacheInv(r.cache) && r.cache.total == c.total
            && (r.found <==>
                  file.size < c.total / 2 && (c.total - c.current >= file.size || Evictable(c.blocks) >= file.size))
            && (forall b :: b in c.blocks && b.pins > 0 ==> b in r.cache.blocks)
            && (forall b :: b in r.cache.blocks ==> b in c.blocks || (r.found && b == Block(file, 0)))
            && (r.found ==> Block(file, 0) in r.cache.blocks)
  {
    hide Sum, Kept, NamesApart, Evictable, Evicted;
    if file.size < c.total / 2 {
      if c.total - c.current < file.size {
        EvictedKeeps(c, file.size);
        var e := Evicted(c, file.size).cache;
        if Evicted(c, file.size).found {
          assert At(e.blocks, file.name) == |e.blocks|;
          AddedKeeps(e, file);
        }
      } else {
        AddedKeeps(c, file);
      }
    }
  }

  /** The insertion of a file that is not in the cache. With room it goes before all blocks,
      and nothing else changes; without room it goes before what an eviction leaves, if that
      makes room; otherwise nothing is added, and the free blocks are gone. A file of half the
      cache or more changes nothing. */
  lemma AbsentLeaves(c: Cache, file: File)
    requires CacheInv(c) && At(c.blocks, file.name) == |c.blocks|
    ensures var r, room := Inserted(c, file), c.total - c.current >= file.size;
            && (file.size >= c.total / 2 ==> r.cache == c)
            && (file.size < c.total / 2 && room ==> r.cache.blocks == [Block(file, 0)] + c.blocks)
            && (r.found && !room ==> exists i: nat :: Suffices(c.blocks, file.size, i)
                                       && r.cache.blocks == [Block(file, 0)] + (Kept(c.blocks[i..]) + c.blocks[..i]))
            && (file.size < c.total / 2 && !r.found ==>
                  forall b :: b in r.cache.blocks <==> b in c.blocks && b.pins > 0)
  {
    if file.size < c.total / 2 && c.total - c.current < file.size { EvictedIs(c, file.size); }
    hide Sum, Kept, NamesApart, Evictable, Evicted, Suffices;
  }

  lemma TooLarge(c: Cache, data: File)
    requires data.size >= c.total / 2
    ensures Inserted(c, data) == Answer(c, false)
  {}

  /** The insertion of a listed file takes one pin from it, and nothing else changes. */
  lemma ListedInsertion(c: Cache, file: File)
    requires CacheInv(c) && At(c.blocks, file.name) < |c.blocks| && file.size < c.total / 2
    ensures var r := Inserted(c, file);
            && r.found && |r.cache.blocks| == |c.blocks| && r.cache.current == c.current
            && forall k :: 0 <= k < |c.blocks| ==>
                 && r.cache.blocks[k].file == c.blocks[k].file
                 && r.cache.blocks[k].pins == c.blocks[k].pins - if c.blocks[k].file.name == file.name then 1 else 0
  {
    hide Sum, Kept, Evicted;
  }

  /** A file is found exactly if it is listed and small enough; it then has one more pin and
      stands before the others, which keep their order. */
  lemma LookedUpIs(c: Cache, data: File)
    requires CacheInv(c)
    ensures LookedUp(c, data).found.Some? <==>
              data.size < c.total / 2 && exists b :: b in c.blocks && b.file.name == data.name
    ensures LookedUp(c, data).found.None? ==> LookedUp(c, data).cache == c
    ensures forall k :: 0 <= k < |c.blocks| && c.blocks[k].file.name == data.name && data.size < c.total / 2 ==>
              && LookedUp(c, data).found == Some(c.blocks[k].file)
              && LookedUp(c, data).cache.blocks ==
                   [Block(c.blocks[k].file, c.blocks[k].pins + 1)] + c.blocks[..k] + c.blocks[k + 1..]
  {
    hide Sum, Kept, MovedToTop;
    var k := At(c.blocks, data.name);
    if k < |c.blocks| {
      var b := c.blocks[k].(pins := c.blocks[k].pins + 1);
      assert c.blocks[k] in c.blocks;
      MovedParts(c.blocks[k := b], k);
      assert c.blocks[k := b][..k] == c.blocks[..k] && c.blocks[k := b][k + 1..] == c.blocks[k + 1..];
    }
  }

  lemma MovedParts<T>(s: seq<T>, k: nat)
    requires k < |s|
    ensures MovedToTop(s, k) == [s[k]] + s[..k] + s[k + 1..]
  {}

  /** Lookup keeps what is true of the cache. */
  lemma LookedUpOk(c: Cache, data: File)
    requires CacheInv(c)
    ensures CacheInv(LookedUp(c, data).cache)
    ensures var k := At(c.blocks, data.name);
            if data.size >= c.total / 2 || k == |c.blocks| then LookedUp(c, data) == Answer(c, None) else
            var b := c.blocks[k];
            LookedUp(c,
                     data) == Answer(c.(blocks := MovedToTop(c.blocks[k := b.(pins := b.pins + 1)], k),
                                        pinned := c.pinned + if b.pins == 0 then 1 else 0), Some(b.file))
    ensures LookedUp(c, data).found.Some? ==>
              var k := At(c.blocks, data.name);
              var used := c.blocks[k].(pins := c.blocks[k].pins + 1);
              forall x :: x in LookedUp(c, data).cache.blocks <==>
                x == used || (x in c.blocks && x.file.name != used.file.name)
  {
    var k := At(c.blocks, data.name);
    hide Sum, Kept, NamesApart, MovedToTop, At;
    if k < |c.blocks| {
      var b := c.blocks[k];
      assert b in c.blocks;
      ReplacedSums(c.blocks, k, b.(pins := b.pins + 1));
      MovedSums(c.blocks[k := b.(pins := b.pins + 1)], k);
    }
  }

  // ---- the steps of an eviction ----

  /** One look at the tail: a block in use moves to the front, a free one goes. */
  lemma Scanned(blocks: seq<Block>, i: nat)
    requires 0 < i <= |blocks|
    ensures var s, before := blocks[i - 1], Survivors(blocks, i);
            && before != [] && before[|before| - 1] == s
            && Survivors(blocks, i - 1) == (if s.pins > 0 then Rotated(before) else before[..|before| - 1])
            && Evictable(blocks[i - 1..]) == Evictable(blocks[i..]) + (if s.pins > 0 then 0 else s.file.size)
  {
    hide Sum, Kept, Evictable, Rotated;
    var s := blocks[i - 1];
    var kept, front := Kept(blocks[i..]), blocks[..i - 1];
    assert blocks[i - 1..] == [s] + blocks[i..];
    SumAppend([s], blocks[i..]);
    SumOne(s);
    assert Survivors(blocks, i) == (kept + front) + [s] by { assert blocks[..i] == front + [s]; }
    assert Survivors(blocks, i - 1) == (if s.pins > 0 then [s] else []) + kept + front;
    hide Survivors;
    RotatedLast(kept + front, s);
    assert ((kept + front) + [s])[..|kept + front|] == kept + front;
  }

  lemma RotatedLast(front: seq<Block>, s: Block)
    ensures Rotated(front + [s]) == [s] + front
  {}

  /** After it, the place where the eviction stops is the same. */
  lemma CutSame(blocks: seq<Block>, i: nat, amount: int)
    requires 0 < i <= |blocks| && 0 < amount
    ensures var less := if blocks[i - 1].pins > 0 then amount else amount - blocks[i - 1].file.size;
            Cut(blocks[..i], amount) == Cut(blocks[..i - 1], less)
  {
    assert blocks[..i][..i - 1] == blocks[..i - 1];
  }

  /** The test for an eviction that is stuck. */
  lemma {:induction false} AllPinnedIff(blocks: seq<Block>)
    ensures |Kept(blocks)| == |blocks| <==> forall k :: 0 <= k < |blocks| ==> blocks[k].pins > 0
  {
    if blocks != [] {
      AllPinnedIff(blocks[1..]);
      KeptSum(blocks[1..]);
    }
  }

  /** All survivors are in use exactly when the first free block has been passed. */
  lemma StuckIff(blocks: seq<Block>, i: nat)
    requires i <= |blocks|
    ensures |Kept(Survivors(blocks, i))| == |Survivors(blocks, i)| <==> i <= FirstFree(blocks)
  {
    AllPinnedIff(Survivors(blocks, i));
    KeptSum(blocks[i..]);
    var s, n := Survivors(blocks, i), |Kept(blocks[i..])|;
    hide Kept, Sum;
    forall k | 0 <= k < i ensures s[n + k] == blocks[k] {}
  }

  /** How far an eviction has come: the blocks from the position on have been looked at,
      and some bytes are still wanted. */
  ghost predicate EvictState(c0: Cache, amount: int, i: nat, c: Cache, left: int) {
    && i <= |c0.blocks| && 0 < amount <= c0.total && amount <= c0.current && CacheInv(c0)
    && FirstFree(c0.blocks) <= i
    && left == amount - Evictable(c0.blocks[i..])
    && Cut(c0.blocks, amount) == Cut(c0.blocks[..i], left)
    && c == c0.(blocks := Survivors(c0.blocks, i), current := c0.current - Evictable(c0.blocks[i..]))
  }

  lemma EvictRefused(c: Cache, amount: int)
    requires amount > c.total || amount <= 0
    ensures Evicted(c, amount) == Answer(c, false)
  {}

  lemma EvictStarts(c0: Cache, amount: int)
    requires CacheInv(c0) && 0 < amount <= c0.total && amount <= c0.current
    ensures EvictState(c0, amount, |c0.blocks|, c0, amount)
  {
    assert c0.blocks[..|c0.blocks|] == c0.blocks;
  }

  lemma EvictBegins(c0: Cache, amount: int)
    requires CacheInv(c0) && 0 < amount <= c0.total && amount <= c0.current
    ensures EvictState(c0, amount, |c0.blocks|, c0, amount) && CacheInv(Evicted(c0, amount).cache)
  {
    hide EvictState, CacheInv, Evicted;
    EvictStarts(c0, amount);
    EvictedKeeps(c0, amount);
  }

  lemma EvictStateFacts(c0: Cache, amount: int, i: nat, c: Cache, left: int)
    requires EvictState(c0, amount, i, c, left)
    ensures NamesApart(c.blocks) && c.pinned == |Kept(c.blocks)|
    ensures i <= |c0.blocks| && FirstFree(c0.blocks) <= i && (0 < left ==> c.blocks != [])
  {
    hide Survivors, Cut, Evictable, Kept;
    SurvivorsAre(c0.blocks, i);
    SurvivorsSums(c0.blocks, i);
  }

  /** When the bytes are there the eviction has done what it should. */
  lemma EvictDone(c0: Cache, amount: int, i: nat, c: Cache, left: int)
    requires EvictState(c0, amount, i, c, left) && left <= 0
    ensures Evicted(c0, amount) == Answer(c, true)
  {
    assert c0.blocks == c0.blocks[..i] + c0.blocks[i..];
    SumAppend(c0.blocks[..i], c0.blocks[i..]);
    assert Cut(c0.blocks[..i], left) == i;
    hide Cut, Evictable, Survivors;
  }

  /** When all that is left is in use the eviction is stuck after one more move. */
  lemma EvictStuck(c0: Cache, amount: int, i: nat, c: Cache, left: int)
    requires EvictState(c0, amount, i, c, left) && 0 < left && i == FirstFree(c0.blocks)
    ensures c.pinned == |c.blocks| && c.blocks[|c.blocks| - 1].pins > 0
    ensures Evicted(c0, amount) == Answer(c.(blocks := Rotated(c.blocks)), false)
  {
    hide Cut, Evictable, Survivors, Kept, Sum, Rotated;
    EvictStateFacts(c0, amount, i, c, left);
    StuckIff(c0.blocks, i);
    AllPinnedIff(c.blocks);
    AllBehind(c0.blocks, i);
  }

  /** Before the first free block there is nothing to evict. */
  lemma AllBehind(blocks: seq<Block>, i: nat)
    requires i == FirstFree(blocks)
    ensures Evictable(blocks[i..]) == Evictable(blocks)
  {
    hide Evictable;
    AllInUse(blocks[..i]);
    assert blocks == blocks[..i] + blocks[i..];
    SumAppend(blocks[..i], blocks[i..]);
  }

  /** Otherwise one more look brings it forward. */
  lemma EvictLooks(c0: Cache, amount: int, i: nat, c: Cache, left: int)
    requires EvictState(c0, amount, i, c, left) && 0 < left && FirstFree(c0.blocks) < i
    ensures c.blocks != []
    ensures var n := |c.blocks| - 1;
            var s := c.blocks[n];
            if s.pins > 0 then
              EvictState(c0, amount, i - 1, c.(blocks := Rotated(c.blocks)), left) && c.pinned != |c.blocks|
            else
              EvictState(c0, amount, i - 1, c.(blocks := c.blocks[..n], current := c.current - s.file.size),
                         left - s.file.size)
  {
    hide Cut, Evictable, Survivors, Kept, Sum, Rotated;
    EvictStateFacts(c0, amount, i, c, left);
    Scanned(c0.blocks, i);
    CutSame(c0.blocks, i, left);
    StuckIff(c0.blocks, i);
  }

  /** One turn of the loop, whatever the tail is. */
  lemma EvictTurn(c0: Cache, amount: int, i: nat, c: Cache, left: int)
    requires EvictState(c0, amount, i, c, left) && 0 < left
    ensures NamesApart(c.blocks) && c.blocks != []
    ensures var n := |c.blocks| - 1;
            var s := c.blocks[n];
            var turned := c.(blocks := MovedToTop(c.blocks, n));
            if s.pins > 0 && c.pinned == |c.blocks| then Evicted(c0, amount) == Answer(turned, false)
            else if s.pins > 0 then 0 < i && EvictState(c0, amount, i - 1, turned, left)
            else 0 < i && EvictState(c0, amount, i - 1,
                                     c.(blocks := c.blocks[..n], current := c.current - s.file.size), left -
                                       s.file.size)
  {
    hide EvictState, Evicted, FirstFree, MovedToTop, NamesApart, Kept;
    EvictStateFacts(c0, amount, i, c, left);
    assert Rotated(c.blocks) == MovedToTop(c.blocks, |c.blocks| - 1);
    if i == FirstFree(c0.blocks) {
      EvictStuck(c0, amount, i, c, left);
    } else {
      EvictLooks(c0, amount, i, c, left);
    }
  }
}
