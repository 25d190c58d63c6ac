/** webserver/server_thread.c: the cache as it is stored, a list of blocks in order of use
    and a table that finds a block by its name. */
module WebLru {
  import opened Options
  import opened Sequences
  import opened WebList
  import opened WebTable
  import opened WebCache

  const INCREMENT_SIZE: nat := 4096

  class CacheBlock {
    var pins: int
    /** the block's linker in the list of names */
    var linkPos: Linker?<CacheBlock>
    const data: File

    constructor (data: File)
      ensures this.data == data && pins == 0
    {
      this.data := data;
      pins, linkPos := 0, null;
    }
  }

  /** A block as a value, and its way back to its linker. */
  ghost predicate Stands(linker: Linker<CacheBlock>, b: Block)
    reads linker.pointer
  {
    linker.pointer.linkPos == linker && linker.pointer.data == b.file && linker.pointer.pins == b.pins
  }

  ghost predicate Standing(linkers: seq<Linker<CacheBlock>>, blocks: seq<Block>)
    reads Pointers(linkers)
  {
    |linkers| == |blocks| && forall i :: 0 <= i < |linkers| ==> Stands(linkers[i], blocks[i])
  }

  lemma StandingMoved(linkers: seq<Linker<CacheBlock>>, blocks: seq<Block>, k: nat)
    requires Standing(linkers, blocks) && k < |blocks|
    ensures Standing(MovedToTop(linkers, k), MovedToTop(blocks, k))
  {}

  lemma StandingDropped(linkers: seq<Linker<CacheBlock>>, blocks: seq<Block>)
    requires Standing(linkers, blocks) && blocks != []
    ensures Standing(linkers[..|linkers| - 1], blocks[..|blocks| - 1])
  {}

  /** Blocks with different names are different objects. */
  lemma ObjectsApart(linkers: seq<Linker<CacheBlock>>, blocks: seq<Block>, k: nat)
    requires Standing(linkers, blocks) && NamesApart(blocks) && k < |blocks|
    ensures forall i :: 0 <= i < |blocks| && i != k ==> linkers[i].pointer != linkers[k].pointer
  {
    forall i | 0 <= i < |blocks| && i != k ensures linkers[i].pointer != linkers[k].pointer {
      assert Stands(linkers[i], blocks[i]) && Stands(linkers[k], blocks[k]);
    }
  }

  /** What the table should keep under a name: the block with that name, if there is one. */
  ghost function Under(objects: seq<CacheBlock>, blocks: seq<Block>, name: string): seq<CacheBlock>
    requires |objects| == |blocks|
  {
    var k := At(blocks, name);
    if k < |blocks| then [objects[k]] else []
  }

  lemma UnderMoved(objects: seq<CacheBlock>, blocks: seq<Block>, k: nat, name: string)
    requires |objects| == |blocks| && k < |blocks| && NamesApart(blocks)
    ensures Under(MovedToTop(objects, k), MovedToTop(blocks, k), name) == Under(objects, blocks, name)
  {
    var r, at, now := MovedToTop(blocks, k), At(blocks, name), At(MovedToTop(blocks, k), name);
    if at < |blocks| {
      assert r[if at < k then at + 1 else if at == k then 0 else at].file.name == name;
    }
    if now < |blocks| {
      assert blocks[if now == 0 then k else if now <= k then now - 1 else now].file.name == name;
    }
  }

  lemma UnderDropped(objects: seq<CacheBlock>, blocks: seq<Block>, name: string)
    requires |objects| == |blocks| && blocks != [] && NamesApart(blocks)
    ensures var n := |blocks| - 1;
            Under(objects[..n], blocks[..n], name) ==
              if name == blocks[n].file.name then [] else Under(objects, blocks, name)
    ensures Under(objects, blocks, blocks[|blocks| - 1].file.name) == [objects[|blocks| - 1]]
  {
    var n := |blocks| - 1;
    var at, now := At(blocks, name), At(blocks[..n], name);
    assert now < n ==> blocks[now].file.name == name;
    assert at < n ==> blocks[..n][at].file.name == name;
    var own := At(blocks, blocks[n].file.name);
  }

  lemma UnderSame(objects: seq<CacheBlock>, blocks: seq<Block>, k: nat, b: Block, name: string)
    requires |objects| == |blocks| && k < |blocks| && b.file == blocks[k].file
    ensures Under(objects, blocks[k := b], name) == Under(objects, blocks, name)
  {
    var at, now := At(blocks, name), At(blocks[k := b], name);
    assert at < |blocks| ==> blocks[k := b][at].file.name == name;
    assert now < |blocks| ==> blocks[now].file.name == name;
  }

  lemma UnderPut(objects: seq<CacheBlock>, blocks: seq<Block>, o: CacheBlock, b: Block, name: string)
    requires |objects| == |blocks| && At(blocks, b.file.name) == |blocks|
    ensures Under([o] + objects, [b] + blocks, name) ==
              if name == b.file.name then [o] else Under(objects, blocks, name)
    ensures Under(objects, blocks, b.file.name) == []
  {
    assert ([b] + blocks)[1..] == blocks;
  }

  lemma ReplacedApart(blocks: seq<Block>, k: nat, more: int)
    requires k < |blocks| && NamesApart(blocks)
    ensures NamesApart(blocks[k := blocks[k].(pins := blocks[k].pins + more)])
  {}

  /** An insertion finds its file not listed or in use. */
  predicate PinThere(c: Cache, data: File) {
    data.size < c.total / 2 ==> forall b :: b in c.blocks && b.file.name == data.name ==> b.pins > 0
  }

  /** An insertion adds a pair to the table: it brings a file that is not listed, and there is
      or can be made room. */
  predicate Adds(c: Cache, data: File) {
    At(c.blocks, data.name) == |c.blocks| && Inserted(c, data).found
  }

  lemma PinThereIs(c: Cache, data: File)
    requires NamesApart(c.blocks)
    ensures PinThere(c, data) <==>
              var k := At(c.blocks, data.name); data.size >= c.total / 2 || k == |c.blocks| || c.blocks[k].pins > 0
  {
    var k := At(c.blocks, data.name);
    if k < |c.blocks| { assert c.blocks[k] in c.blocks; }
  }

  /** Taking one pin from a listed block keeps what is true of the cache exactly if the block
      is in use. */
  lemma UnpinOk(c: Cache, data: File)
    requires CacheInv(c) && At(c.blocks, data.name) < |c.blocks| && data.size < c.total / 2
    ensures CacheInv(Inserted(c, data).cache) <==> c.blocks[At(c.blocks, data.name)].pins > 0
    ensures var k := At(c.blocks, data.name);
            var b := c.blocks[k];
            Inserted(c,
                     data) == Answer(c.(blocks := c.blocks[k := b.(pins := b.pins - 1)],
                                        pinned := c.pinned - if b.pins == 1 then 1 else 0), true)
  {
    hide Sum, Kept, NamesApart, At, Evicted;
    var k := At(c.blocks, data.name);
    var b := c.blocks[k];
    assert b in c.blocks;
    var after := Inserted(c, data).cache.blocks;
    assert after[k] in after && after[k].pins == b.pins - 1;
    if b.pins > 0 { ReplacedSums(c.blocks, k, b.(pins := b.pins - 1)); }
  }

  /** Eviction brings nothing in. */
  lemma StillAbsent(c: Cache, data: File)
    requires At(c.blocks, data.name) == |c.blocks|
    requires forall b :: b in Evicted(c, data.size).cache.blocks ==> b in c.blocks
    ensures var e := Evicted(c, data.size).cache; At(e.blocks, data.name) == |e.blocks|
  {
    hide Evicted;
    var e := Evicted(c, data.size).cache;
    forall k | 0 <= k < |e.blocks| ensures e.blocks[k].file.name != data.name {
      assert e.blocks[k] in c.blocks;
    }
  }

  lemma LookedUpAt(c: Cache, data: File)
    requires CacheInv(c)
    ensures CacheInv(LookedUp(c, data).cache)
    ensures var k := At(c.blocks, data.name);
            if data.size >= c.total / 2 || k == |c.blocks| then LookedUp(c, data) == Answer(c, None) else
            var b := c.blocks[k];
            LookedUp(c, data) ==
              Answer(c.(blocks := MovedToTop(c.blocks[k := b.(pins := b.pins + 1)], k),
                        pinned := c.pinned + if b.pins == 0 then 1 else 0), Some(b.file))
  {
    LookedUpOk(c, data);
  }

  lemma NothingListed(total: nat)
    ensures CacheInv(Cache([], 0, 0, total)) && Pointers<CacheBlock>([]) == []
    ensures forall name :: Under([], [], name) == []
  {}

  lemma Apart(c: Cache)
    requires CacheInv(c)
    ensures NamesApart(c.blocks)
  {}

  lemma InsertedOk(c: Cache, data: File)
    requires CacheInv(c) && At(c.blocks, data.name) == |c.blocks|
    ensures CacheInv(Inserted(c, data).cache)
  {
    AbsentInsertion(c, data);
  }

  lemma ListSize(list: List<CacheBlock>)
    requires list.Valid()
    ensures list.size == |list.Contents()|
  {}

  class LruCache {
    const fileTable: BucketBuffer<CacheBlock>
    const nameList: List<CacheBlock>
    const totalSize: nat
    var currentSize: int
    var nPinned: int
    /** the cache as a value */
    ghost var state: Cache
    /** the blocks in the order of the list */
    ghost var blocks: seq<CacheBlock>

    /** The list and the table share nothing. */
    ghost predicate Separate()
      reads this, nameList, fileTable
    {
      && nameList !in fileTable.repr && this !in fileTable.repr
      && (forall n :: n in nameList.linkers ==> n !in fileTable.repr)
      && (forall b :: b in blocks ==> b !in fileTable.repr)
    }

    /** The table keeps exactly the listed blocks. */
    ghost predicate Tabled()
      reads this, fileTable, fileTable.repr
    {
      && fileTable.Valid() && |blocks| == |state.blocks|
      && forall name :: fileTable.Stored(name) == Under(blocks, state.blocks, name)
    }

    /** List, table and counters agree with the value and with each other. */
    ghost predicate Agrees()
      reads this, nameList, nameList.linkers, fileTable, fileTable.repr, blocks
    {
      && nameList.Valid() && Separate() && Tabled()
      && blocks == nameList.Contents() && |blocks| == nameList.size
      && Standing(nameList.linkers, state.blocks)
      && currentSize == state.current && nPinned == state.pinned && totalSize == state.total
    }

    ghost predicate Valid()
      reads this, nameList, nameList.linkers, fileTable, fileTable.repr, blocks
    {
      Agrees() && CacheInv(state)
    }

    /** All objects the cache is made of. */
    ghost function Footprint(): (objects: set<object>)
      reads this, fileTable, nameList
    {
      {this, fileTable, nameList} + fileTable.repr + (set n | n in nameList.linkers) + (set b | b in blocks)
    }

    constructor (size: nat)
      ensures && Valid() && state == Cache([], 0, 0, size) && fileTable.bucketNumber == 0
              && fileTable.size == INCREMENT_SIZE
      ensures fresh(Footprint())
    {
      hide List.Valid, BucketBuffer.Valid, BucketBuffer.Stored, Under, At, CacheInv, Pointers;
      NothingListed(size);
      fileTable := new BucketBuffer<CacheBlock>(INCREMENT_SIZE);
      nameList := new List<CacheBlock>();
      totalSize := size;
      currentSize := 0;
      nPinned := 0;
      state := Cache([], 0, 0, size);
      blocks := [];
    }

    /** Moves a block of the list to the front. */
    method MoveUp(blk: CacheBlock, ghost k: nat)
      requires Agrees() && NamesApart(state.blocks) && k < |blocks| && blk == blocks[k]
      modifies this`state, this`blocks, nameList, nameList.linkers
      ensures Agrees() && state == old(state).(blocks := MovedToTop(old(state).blocks, k))
      ensures forall n :: n in nameList.linkers ==> n in old(nameList.linkers)
      ensures forall b :: b in blocks ==> b in old(blocks)
      ensures fileTable.bucketNumber == old(fileTable.bucketNumber)
    {
      hide List.Valid, BucketBuffer.Valid, BucketBuffer.Stored, Pointers, MovedToTop, Under, At, NamesApart;
      assert Stands(nameList.linkers[k], state.blocks[k]);
      StandingMoved(nameList.linkers, state.blocks, k);
      forall name { UnderMoved(blocks, state.blocks, k, name); }
      MovedMembers(nameList.linkers, k);
      MovedMembers(blocks, k);
      var ret := nameList.PMoveTop(blk.linkPos, k);
      state := state.(blocks := MovedToTop(state.blocks, k));
      blocks := MovedToTop(blocks, k);
    }

    /** Takes the last block out of the list and the table. */
    method DropLast(blk: CacheBlock)
      requires Agrees() && NamesApart(state.blocks) && 0 < |blocks| && blk == blocks[|blocks| - 1]
      modifies this, nameList, nameList.linkers, fileTable, fileTable.repr
      ensures Agrees() && fileTable.repr == old(fileTable.repr)
      ensures forall n :: n in nameList.linkers ==> n in old(nameList.linkers)
      ensures var n := |old(blocks)| - 1;
              state == old(state).(blocks := old(state).blocks[..n],
                                   current := old(state).current - old(state).blocks[n].file.size)
      ensures forall b :: b in blocks ==> b in old(blocks)
      ensures fileTable.bucketNumber == old(fileTable.bucketNumber)
    {
      hide List.Valid, BucketBuffer.Valid, BucketBuffer.Stored, Pointers, Under, At, NamesApart;
      ghost var n := |blocks| - 1;
      assert Stands(nameList.linkers[n], state.blocks[n]);
      forall name { UnderDropped(blocks, state.blocks, name); }
      currentSize := currentSize - blk.data.size;
      PullLast();
      Forget(blk.data.name);
    }

    /** The list without its last block. */
    method PullLast()
      requires nameList.Valid() && Separate() && Standing(nameList.linkers, state.blocks)
      requires Pointers(nameList.linkers) == blocks && 0 < |blocks| == nameList.size && |blocks| == |state.blocks|
      modifies this`state, this`blocks, nameList, nameList.linkers
      ensures nameList.Valid() && Separate() && Standing(nameList.linkers, state.blocks)
      ensures Pointers(nameList.linkers) == blocks && |blocks| == nameList.size
      ensures nameList.linkers == old(nameList.linkers)[..|old(blocks)| - 1]
      ensures blocks == old(blocks)[..|old(blocks)| - 1]
      ensures state == old(state).(blocks := old(state).blocks[..|old(blocks)| - 1], current := currentSize)
    {
      hide List.Valid, BucketBuffer.Valid, BucketBuffer.Stored, Pointers;
      ghost var n := |blocks| - 1;
      StandingDropped(nameList.linkers, state.blocks);
      nameList.Pull();
      blocks := blocks[..n];
      state := state.(blocks := state.blocks[..n], current := currentSize);
    }

    /** Takes the only block under a name out of the table. */
    method Forget(name: string)
      requires && nameList.Valid() && Separate() && Standing(nameList.linkers, state.blocks)
               && Pointers(nameList.linkers) == blocks
      requires fileTable.Valid() && |fileTable.Stored(name)| == 1
      requires |blocks| == |state.blocks| && Under(blocks, state.blocks, name) == []
      requires forall k :: k != name ==> fileTable.Stored(k) == Under(blocks, state.blocks, k)
      modifies fileTable, fileTable.repr
      ensures nameList.Valid() && Separate() && Standing(nameList.linkers, state.blocks) && Tabled()
      ensures fileTable.repr == old(fileTable.repr)
      ensures fileTable.bucketNumber == old(fileTable.bucketNumber)
    {
      hide List.Valid, BucketBuffer.Valid, BucketBuffer.Stored, Pointers, Under, At, NamesApart;
      var deleted := fileTable.Delete(name);
    }

    /** A request finds its file or not. */
    method Lookup(data: File) returns (found: Option<File>)
      requires Valid()
      modifies this, nameList, nameList.linkers, blocks
      ensures Valid() && Answer(state, found) == LookedUp(old(state), data)
      ensures fileTable.bucketNumber == old(fileTable.bucketNumber)
      ensures fresh(Footprint() - old(Footprint()))
    {
      hide Agrees, List.Valid, BucketBuffer.Valid, BucketBuffer.Stored, Pointers, Under, At, NamesApart, MovedToTop,
           Sum, Kept, LookedUp, CacheInv;
      Facts();
      Apart(state);
      LookedUpAt(state, data);
      if data.size >= totalSize / 2 {
        return None;
      }
      var ret := fileTable.Find(data.name);
      ghost var k := At(state.blocks, data.name);
      CacheTable(data.name, k);
      if ret == None {
        return None;
      }
      var blk := ret.value;
      Use(blk, k);
      return Some(blk.data);
    }

    /** A block gets one more pin and is the last used. */
    method Use(blk: CacheBlock, ghost k: nat)
      requires Agrees() && NamesApart(state.blocks) && k < |blocks| && blk == blocks[k]
      modifies this`state, this`nPinned, this`blocks, nameList, nameList.linkers, blk`pins
      ensures Agrees()
      ensures var b := old(state).blocks[k];
              state == old(state).(blocks := MovedToTop(old(state).blocks[k := b.(pins := b.pins + 1)], k),
                                   pinned := old(state).pinned + if b.pins == 0 then 1 else 0)
      ensures forall n :: n in nameList.linkers ==> n in old(nameList.linkers)
      ensures forall b :: b in blocks ==> b in old(blocks)
    {
      hide List.Valid, BucketBuffer.Valid, BucketBuffer.Stored, Pointers, Under, At, NamesApart, MovedToTop;
      ReplacedApart(state.blocks, k, 1);
      Pin(blk, k);
      MoveUp(blk, k);
    }

    /** What agreement says of the list and the counters. */
    lemma Facts()
      requires Agrees()
      ensures && nameList.Valid() && fileTable.Valid() && blocks == nameList.Contents()
              && |blocks| == |state.blocks| == nameList.size
      ensures currentSize == state.current && nPinned == state.pinned && totalSize == state.total
      ensures forall k ::
                0 <= k < |blocks| ==> blocks[k].pins == state.blocks[k].pins && blocks[k].data == state.blocks[k].file
    {
      assert forall k :: 0 <= k < |blocks| ==> Stands(nameList.linkers[k], state.blocks[k]);
    }

    /** What the table finds is the block the list has under that name. */
    lemma CacheTable(name: string, k: nat)
      requires Agrees() && k == At(state.blocks, name)
      ensures fileTable.Stored(name) == if k < |blocks| then [blocks[k]] else []
      ensures k < |blocks| ==> Stands(nameList.linkers[k], state.blocks[k]) && nameList.linkers[k].pointer == blocks[k]
    {}

    method Pin(blk: CacheBlock, ghost k: nat)
      requires Agrees() && k < |blocks| && blk == blocks[k] && NamesApart(state.blocks)
      modifies this`state, this`nPinned, blk`pins
      ensures Agrees()
      ensures var b := old(state).blocks[k];
              state == old(state).(blocks := old(state).blocks[k := b.(pins := b.pins + 1)],
                                   pinned := old(state).pinned + if b.pins == 0 then 1 else 0)
    {
      hide List.Valid, BucketBuffer.Valid, BucketBuffer.Stored, Pointers, Under, At, NamesApart;
      ghost var b := state.blocks[k];
      assert Stands(nameList.linkers[k], b);
      ObjectsApart(nameList.linkers, state.blocks, k);
      forall name { UnderSame(blocks, state.blocks, k, b.(pins := b.pins + 1), name); }
      if blk.pins == 0 {
        nPinned := nPinned + 1;
      }
      blk.pins := blk.pins + 1;
      state := state.(blocks := state.blocks[k := b.(pins := b.pins + 1)], pinned := nPinned);
    }

    method Unpin(blk: CacheBlock, ghost k: nat)
      requires Agrees() && k < |blocks| && blk == blocks[k] && NamesApart(state.blocks)
      modifies this`state, this`nPinned, blk`pins
      ensures Agrees()
      ensures var b := old(state).blocks[k];
              state == old(state).(blocks := old(state).blocks[k := b.(pins := b.pins - 1)],
                                   pinned := old(state).pinned - if b.pins == 1 then 1 else 0)
    {
      hide List.Valid, BucketBuffer.Valid, BucketBuffer.Stored, Pointers, Under, At, NamesApart;
      ghost var b := state.blocks[k];
      assert Stands(nameList.linkers[k], b);
      ObjectsApart(nameList.linkers, state.blocks, k);
      forall name { UnderSame(blocks, state.blocks, k, b.(pins := b.pins - 1), name); }
      blk.pins := blk.pins - 1;
      if blk.pins == 0 {
        nPinned := nPinned - 1;
      }
      state := state.(blocks := state.blocks[k := b.(pins := b.pins - 1)], pinned := nPinned);
    }

    /** One turn of the eviction loop: a block in use at the tail goes to the front, a free
        one goes; stuck when there is nothing free any more. */
    method LookAtTail(ghost c0: Cache, ghost amount: int, ghost i: nat, left: int) returns (rest: int, stuck: bool)
      requires Agrees() && EvictState(c0, amount, i, state, left) && 0 < left
      modifies this, nameList, nameList.linkers, fileTable, fileTable.repr
      ensures Agrees()
      ensures if stuck
              then Evicted(c0, amount) == Answer(state, false)
              else 0 < i && EvictState(c0, amount, i - 1, state, rest)
      ensures fileTable.repr == old(fileTable.repr) && fileTable.bucketNumber == old(fileTable.bucketNumber)
      ensures forall n :: n in nameList.linkers ==> n in old(nameList.linkers)
      ensures forall b :: b in blocks ==> b in old(blocks)
    {
      hide Agrees, List.Valid, BucketBuffer.Valid, BucketBuffer.Stored, NamesApart, MovedToTop, EvictState, Evicted;
      Facts();
      EvictTurn(c0, amount, i, state, left);
      var blk := nameList.Bot();
      ghost var last := |blocks| - 1;
      if blk.pins > 0 {
        MoveUp(blk, last);
        Facts();
        return left, nPinned == nameList.size;
      }
      rest := left - blk.data.size;
      DropLast(blk);
      return rest, false;
    }

    /** Makes room for a number of bytes by taking free blocks from the tail. */
    method Evict(amount: int) returns (ok: bool)
      requires Valid() && (0 < amount <= totalSize ==> amount <= currentSize)
      modifies this, nameList, nameList.linkers, fileTable, fileTable.repr
      ensures Valid() && Answer(state, ok) == Evicted(old(state), amount)
      ensures fileTable.repr == old(fileTable.repr) && forall n :: n in nameList.linkers ==> n in old(nameList.linkers)
      ensures forall b :: b in blocks ==> b in old(blocks)
      ensures fileTable.bucketNumber == old(fileTable.bucketNumber)
    {
      hide Agrees, List.Valid, BucketBuffer.Valid, BucketBuffer.Stored, CacheInv, EvictState, Evicted, FirstFree;
      Facts();
      if amount > totalSize || amount <= 0 {
        EvictRefused(state, amount);
        return false;
      }
      var left := amount;
      ghost var i: nat := |state.blocks|;
      EvictBegins(state, amount);
      while left > 0
        invariant Agrees() && EvictState(old(state), amount, i, state, left)
        invariant fileTable.bucketNumber == old(fileTable.bucketNumber)
        invariant forall n :: n in nameList.linkers ==> n in old(nameList.linkers)
        invariant forall b :: b in blocks ==> b in old(blocks)
        invariant fileTable.repr == old(fileTable.repr)
        decreases i
      {
        assert forall k :: 0 <= k < |nameList.linkers| ==> nameList.linkers[k] in old(nameList.linkers);
        var stuck;
        left, stuck := LookAtTail(old(state), amount, i, left);
        if stuck {
          return false;
        }
        i := i - 1;
      }
      EvictDone(old(state), amount, i, state, left);
      return true;
    }

    /** A request is done with its file, or brings one that was not there. What is true of
        the cache is kept exactly if a listed block is pinned, so that the caller has looked
        it up. A pair that is added must not make the table grow. */
    method Insert(data: File) returns (ok: bool)
      requires Valid() && (Adds(state, data) ==> 2 * (fileTable.bucketNumber + 1) < fileTable.size)
      modifies this, nameList, nameList.linkers, fileTable, fileTable.repr, blocks
      ensures Agrees() && Answer(state, ok) == Inserted(old(state), data)
      ensures Valid() <==> PinThere(old(state), data)
      ensures fileTable.bucketNumber == old(fileTable.bucketNumber) + if Adds(old(state), data) then 1 else 0
      ensures fresh(Footprint() - old(Footprint()))
    {
      hide Agrees, List.Valid, BucketBuffer.Valid, BucketBuffer.Stored, Pointers, At, NamesApart, Sum, Kept,
           Inserted, Evictable, CacheInv, PinThere;
      Facts();
      Apart(state);
      PinThereIs(state, data);
      if data.size >= totalSize / 2 {
        TooLarge(state, data);
        return false;
      }
      var ret := fileTable.Find(data.name);
      ghost var k := At(state.blocks, data.name);
      CacheTable(data.name, k);
      if ret == None {
        ok := Bring(data);
        return ok;
      }
      Return(data, ret.value, k);
      return true;
    }

    /** Takes a pin from a listed block. */
    method Return(data: File, blk: CacheBlock, ghost k: nat)
      requires && Valid() && k == At(state.blocks, data.name) < |blocks| && blk == blocks[k]
               && data.size < totalSize / 2
      modifies this`state, this`nPinned, blk`pins
      ensures Agrees() && Answer(state, true) == Inserted(old(state), data)
      ensures CacheInv(state) <==> old(state).blocks[k].pins > 0
    {
      hide Agrees, List.Valid, BucketBuffer.Valid, BucketBuffer.Stored, Pointers, At, NamesApart, Sum, Kept,
           Inserted, Evictable, CacheInv;
      Facts();
      Apart(state);
      UnpinOk(state, data);
      Unpin(blk, k);
    }

    /** Inserts a file that is not listed. */
    method Bring(data: File) returns (ok: bool)
      requires Valid() && At(state.blocks, data.name) == |state.blocks| && data.size < totalSize / 2
      modifies this, nameList, nameList.linkers, fileTable, fileTable.repr
      ensures Valid() && Answer(state, ok) == Inserted(old(state), data)
      ensures fileTable.bucketNumber == old(fileTable.bucketNumber) + if Inserted(old(state), data).found then 1 else 0
      ensures fresh(Footprint() - old(Footprint()))
    {
      hide Agrees, List.Valid, BucketBuffer.Valid, BucketBuffer.Stored, Pointers, At, NamesApart, Sum, Kept,
           Inserted, Evictable, CacheInv;
      InsertedOk(state, data);
      ok := MakeRoom(data);
      if ok {
        assert forall i :: 0 <= i < |nameList.linkers| ==> nameList.linkers[i] in old(nameList.linkers);
        Add(data);
      }
    }

    /** Evicts if the free space is too small for the file. */
    method MakeRoom(data: File) returns (ok: bool)
      requires Valid() && At(state.blocks, data.name) == |state.blocks| && data.size < totalSize / 2
      modifies this, nameList, nameList.linkers, fileTable, fileTable.repr
      ensures Agrees() && Inserted(old(state), data) == Answer(if ok then Added(state, data) else state, ok)
      ensures ok ==> At(state.blocks, data.name) == |state.blocks|
      ensures fileTable.repr == old(fileTable.repr) && forall n :: n in nameList.linkers ==> n in old(nameList.linkers)
      ensures forall b :: b in blocks ==> b in old(blocks)
      ensures fileTable.bucketNumber == old(fileTable.bucketNumber)
    {
      hide Agrees, List.Valid, BucketBuffer.Valid, BucketBuffer.Stored, At, NamesApart, Sum, Kept, Evicted, Evictable;
      Facts();
      if totalSize - currentSize < data.size {
        EvictedKeeps(state, data.size);
        StillAbsent(state, data);
        ok := Evict(data.size);
        return ok;
      }
      return true;
    }

    /** A new block at the front of the list and in the table. */
    method Add(data: File)
      requires Agrees() && At(state.blocks, data.name) == |state.blocks|
      modifies this, nameList, nameList.linkers, fileTable, fileTable.repr
      ensures Agrees() && state == Added(old(state), data) && fresh(Footprint() - old(Footprint()))
      ensures fileTable.bucketNumber == old(fileTable.bucketNumber) + 1
    {
      hide List.Valid, BucketBuffer.Valid, BucketBuffer.Stored, Pointers, Under, At;
      var added := new CacheBlock(data);
      Tabulate(added);
      FrontAndCount(added);
    }

    /** The new block in the table. */
    method Tabulate(added: CacheBlock)
      requires Agrees() && At(state.blocks, added.data.name) == |state.blocks|
      requires added !in blocks && added !in fileTable.repr
      modifies fileTable, fileTable.repr
      ensures nameList.Valid() && Standing(nameList.linkers, state.blocks) && Separate() && added !in fileTable.repr
      ensures fileTable.Valid() && forall name ::
                fileTable.Stored(name) == Under([added] + blocks, [Block(added.data, 0)] + state.blocks, name)
      ensures fileTable.bucketNumber == old(fileTable.bucketNumber) + 1
      ensures forall o :: o in fileTable.repr ==> o in old(fileTable.repr) || fresh(o)
    {
      hide List.Valid, BucketBuffer.Valid, BucketBuffer.Stored, Pointers, Under, At;
      forall name { UnderPut(blocks, state.blocks, added, Block(added.data, 0), name); }
      fileTable.Insert(added.data.name, added);
    }

    method FrontAndCount(added: CacheBlock)
      requires nameList.Valid() && Standing(nameList.linkers, state.blocks) && added.pins == 0 && Separate()
      requires blocks == nameList.Contents() && added !in blocks && added !in fileTable.repr
      requires fileTable.Valid()
      requires && |blocks| == |state.blocks|
               && forall name :: fileTable.Stored(name) ==
                    Under([added] + blocks, [Block(added.data, 0)] + state.blocks, name)
      requires currentSize == state.current && nPinned == state.pinned && totalSize == state.total
      modifies this`state, this`blocks, this`currentSize, nameList, nameList.linkers, added`linkPos
      ensures Agrees() && state == Added(old(state), added.data)
      ensures forall n :: n in nameList.linkers ==> n in old(nameList.linkers) || fresh(n)
      ensures blocks == [added] + old(blocks)
    {
      hide List.Valid, BucketBuffer.Valid, BucketBuffer.Stored, Under, At;
      Front(added);
      currentSize := currentSize + added.data.size;
      state := Added(state, added.data);
      blocks := [added] + blocks;
      assert nameList.size == |blocks| by { ListSize(nameList); }
    }

    /** The new block in the list, with its way back. */
    method Front(added: CacheBlock)
      requires nameList.Valid() && Standing(nameList.linkers, state.blocks) && added.pins == 0
      requires forall n :: n in nameList.linkers ==> n.pointer != added
      modifies nameList, nameList.linkers, added`linkPos
      ensures nameList.Valid() && Standing(nameList.linkers, [Block(added.data, 0)] + state.blocks)
      ensures nameList.Contents() == [added] + old(nameList.Contents())
      ensures forall n :: n in nameList.linkers ==> n in old(nameList.linkers) || fresh(n)
    {
      hide List.Valid, BucketBuffer.Valid, BucketBuffer.Stored, Under, At;
      nameList.Put(added);
      added.linkPos := nameList.start;
    }
  }
}
