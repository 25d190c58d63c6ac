/** webserver/server_thread.c: one buffer of the chained hash table. Under every key it keeps
    a queue of values: find sees the oldest, insert adds a new one behind, delete takes the
    oldest away. */
module WebTable {
  import opened Options
  import opened Sequences
  import opened WebList

  datatype Pair<V> = Pair(key: string, value: V)

  const HASH_START: nat := 4294979861
  const HASH_MODULUS: nat := 0x1_0000_0000_0000_0000

  /** The hash before it is cut to the buffer's size, in 64-bit arithmetic. */
  function StrHash(key: string): (h: nat)
    ensures h < HASH_MODULUS
  {
    if key == "" then HASH_START else
      var h := StrHash(key[..|key| - 1]);
      (h * 32 % HASH_MODULUS + h + key[|key| - 1] as nat) % HASH_MODULUS
  }

  /** The bucket of a key. The size is a power of two, so masking is a remainder. */
  function Bucket(key: string, size: nat): (b: nat)
    requires 0 < size
    ensures b < size
  {
    StrHash(key) % size
  }

  // ---- one chain ----

  /** The values a chain keeps under a key, oldest first. */
  function Values<V>(chain: seq<Pair<V>>, key: string): (vs: seq<V>)
  {
    if chain == [] then [] else (if chain[0].key == key then [chain[0].value] else []) + Values(chain[1..], key)
  }

  lemma {:induction false} ValuesAppend<V>(a: seq<Pair<V>>, b: seq<Pair<V>>, key: string)
    ensures Values(a + b, key) == Values(a, key) + Values(b, key)
  {
    if a == [] {
      assert a + b == b;
    } else {
      ValuesAppend(a[1..], b, key);
      assert (a + b)[0] == a[0] && (a + b)[1..] == a[1..] + b;
      var own := if a[0].key == key then [a[0].value] else [];
      hide Values;
      assert own + (Values(a[1..], key) + Values(b, key)) == own + Values(a[1..], key) + Values(b, key);
    }
  }

  /** No pair before the position has the key. */
  ghost predicate NoneBefore<V>(chain: seq<Pair<V>>, pos: nat, key: string)
    requires pos <= |chain|
  {
    forall i :: 0 <= i < pos ==> chain[i].key != key
  }

  lemma {:induction false} ValuesAbsent<V>(chain: seq<Pair<V>>, key: string)
    requires NoneBefore(chain, |chain|, key)
    ensures Values(chain, key) == []
  {
    if chain != [] { ValuesAbsent(chain[1..], key); }
  }

  lemma ValuesNone<V>(key: string)
    ensures Values<V>([], key) == []
  {}

  /** The first pair with the key holds the oldest value; without it the next is the oldest,
      and no other key notices. */
  lemma ValuesFirst<V>(chain: seq<Pair<V>>, pos: nat, other: string)
    requires pos < |chain| && NoneBefore(chain, pos, chain[pos].key)
    ensures Values(chain, chain[pos].key) == [chain[pos].value] + Values(Without(chain, pos), chain[pos].key)
    ensures other != chain[pos].key ==> Values(chain, other) == Values(Without(chain, pos), other)
  {
    var a, p, b := chain[..pos], chain[pos], chain[pos + 1..];
    assert chain == a + ([p] + b) && Without(chain, pos) == a + b;
    ValuesAbsent(a, p.key);
    forall k ensures Values(chain, k) == Values(a, k) + ((if p.key == k then [p.value] else []) + Values(b, k))
                  && Values(Without(chain, pos), k) == Values(a, k) + Values(b, k) {
      ValuesAppend(a, [p] + b, k);
      ValuesAppend(a, b, k);
      assert ([p] + b)[1..] == b;
    }
  }

  // ---- the buffer ----

  /** Every pair lies in the bucket of its key. */
  ghost predicate Placed<V>(chains: seq<seq<Pair<V>>>) {
    forall i, j :: 0 <= i < |chains| && 0 <= j < |chains[i]| ==> Bucket(chains[i][j].key, |chains|) == i
  }

  /** What a table of chains keeps under a key, oldest first. */
  ghost function StoredIn<V>(chains: seq<seq<Pair<V>>>, key: string): seq<V>
    requires 0 < |chains|
  {
    Values(chains[Bucket(key, |chains|)], key)
  }

  /** A new pair at the end of the key's chain. */
  lemma ChainsInserted<V>(chains: seq<seq<Pair<V>>>, key: string, value: V)
    requires 0 < |chains| && Placed(chains)
    ensures var b := Bucket(key, |chains|);
            var after := chains[b := chains[b] + [Pair(key, value)]];
            && Placed(after) && StoredIn(after, key) == StoredIn(chains, key) + [value]
            && forall k :: k != key ==> StoredIn(after, k) == StoredIn(chains, k)
  {
    var b := Bucket(key, |chains|);
    forall k
      ensures Values(chains[b] + [Pair(key, value)], k) == Values(chains[b], k) + (if k == key then [value] else [])
    {
      ValuesAppend(chains[b], [Pair(key, value)], k);
    }
  }

  /** The first pair with a key taken out of its chain. */
  lemma ChainsDeleted<V>(chains: seq<seq<Pair<V>>>, key: string, pos: nat)
    requires 0 < |chains| && Placed(chains)
    requires var b := Bucket(key, |chains|);
             pos < |chains[b]| && NoneBefore(chains[b], pos, key) && chains[b][pos].key == key
    ensures var b := Bucket(key, |chains|);
            var after := chains[b := Without(chains[b], pos)];
            && Placed(after) && StoredIn(chains, key) == [chains[b][pos].value] + StoredIn(after, key)
            && forall k :: k != key ==> StoredIn(after, k) == StoredIn(chains, k)
  {
    var b := Bucket(key, |chains|);
    forall k
      ensures Values(chains[b], k) == (if k == key then [chains[b][pos].value] else []) +
                Values(Without(chains[b], pos), k)
    {
      ValuesFirst(chains[b], pos, k);
    }
  }

  /** A chain moved as a whole to the bucket of its first key, as growth does it. */
  function Rehomed<V>(chains: seq<seq<Pair<V>>>, chain: seq<Pair<V>>): seq<seq<Pair<V>>>
    requires 0 < |chains| && chain != []
  {
    var b := Bucket(chain[0].key, |chains|);
    chains[b := chains[b] + chain]
  }

  /** All its values are found there exactly if all its keys belong into that bucket: a chain
      that should have been divided loses values. */
  lemma RehomedFoundIff<V>(chains: seq<seq<Pair<V>>>, chain: seq<Pair<V>>)
    requires 0 < |chains| && chain != []
    ensures (forall key :: StoredIn(Rehomed(chains, chain), key) == StoredIn(chains, key) + Values(chain, key))
       <==> (forall i :: 0 <= i < |chain| ==> Bucket(chain[i].key, |chains|) == Bucket(chain[0].key, |chains|))
  {
    hide Values, Bucket;
    var b := Bucket(chain[0].key, |chains|);
    forall key
      ensures StoredIn(Rehomed(chains, chain), key) ==
                StoredIn(chains, key) + (if Bucket(key, |chains|) == b then Values(chain, key) else [])
    {
      ValuesAppend(chains[b], chain, key);
    }
    forall i | 0 <= i < |chain| ensures Values(chain, chain[i].key) != [] {
      ValuesPresent(chain, i);
    }
    forall key | forall i :: 0 <= i < |chain| ==> chain[i].key != key ensures Values(chain, key) == [] {
      ValuesAbsent(chain, key);
    }
  }

  /** Two keys that share a bucket of a new table and do not after its first growth. */
  lemma DividedChain()
    ensures Bucket("AAA", 4096) == Bucket("DZE", 4096) && Bucket("AAA", 8192) != Bucket("DZE", 8192)
  {
    HashOfThree('A', 'A', 'A', 141734335478, 4677233070839, 154348691337752);
    HashOfThree('D', 'Z', 'E', 141734335481, 4677233070963, 154348691341848);
    assert ['A', 'A', 'A'] == "AAA" && ['D', 'Z', 'E'] == "DZE";
    hide StrHash;
  }

  lemma HashOfThree(a: char, b: char, c: char, h1: nat, h2: nat, h3: nat)
    requires h1 == (HASH_START * 32 % HASH_MODULUS + HASH_START + a as nat) % HASH_MODULUS
    requires h2 == (h1 * 32 % HASH_MODULUS + h1 + b as nat) % HASH_MODULUS
    requires h3 == (h2 * 32 % HASH_MODULUS + h2 + c as nat) % HASH_MODULUS
    ensures StrHash([a, b, c]) == h3
  {
    NoHash();
    hide StrHash;
    assert [] + [a] == [a] && [a] + [b] == [a, b] && [a, b] + [c] == [a, b, c];
    NextHash([], a, h1);
    NextHash([a], b, h2);
    NextHash([a, b], c, h3);
  }

  lemma NoHash()
    ensures StrHash("") == HASH_START
  {}

  lemma NextHash(key: string, c: char, h: nat)
    requires h == (StrHash(key) * 32 % HASH_MODULUS + StrHash(key) + c as nat) % HASH_MODULUS
    ensures StrHash(key + [c]) == h
  {
    assert (key + [c])[..|key|] == key;
  }

  /** Moved with the first, the second key is not found any more. */
  lemma LostValue<V>(chains: seq<seq<Pair<V>>>, a: V, b: V)
    requires |chains| == 8192 && StoredIn(chains, "DZE") == []
    ensures StoredIn(Rehomed(chains, [Pair("AAA", a), Pair("DZE", b)]), "DZE") == []
    ensures Values([Pair("AAA", a), Pair("DZE", b)], "DZE") == [b]
  {
    DividedChain();
    hide Bucket;
    var chain := [Pair("AAA", a), Pair("DZE", b)];
    var last := chain[1..];
    assert last == [Pair("DZE", b)] && last[1..] == [] && Values(last, "DZE") == [b];
  }

  lemma {:induction false} ValuesPresent<V>(chain: seq<Pair<V>>, i: nat)
    requires i < |chain|
    ensures Values(chain, chain[i].key) != []
  {
    if 0 < i && chain[0].key != chain[i].key { ValuesPresent(chain[1..], i - 1); }
  }

  class BucketBuffer<V> {
    const list: array<List?<Pair<V>>>
    const size: nat
    var bucketNumber: nat
    /** the contents of the buckets */
    ghost var chains: seq<seq<Pair<V>>>
    /** the lists and the linkers in them */
    ghost var repr: set<object>
    /** the bucket each of them belongs to */
    ghost var home: map<object, nat>

    ghost predicate Valid()
      reads this, repr
    {
      Shape() && Placed(chains)
    }

    /** The lists stay apart and hold the chains. */
    ghost predicate Shape()
      reads this, repr
    {
      && 0 < size == list.Length == |chains|
      && repr == home.Keys + {list} && this !in repr && list !in home
      && (forall i :: 0 <= i < size && list[i] != null ==> list[i] in repr)
      && (forall i :: 0 <= i < size && list[i] != null ==> AtHome(list[i], home, i))
      && (forall i :: 0 <= i < size ==> Holds(list[i], chains[i]))
    }

    /** What the buffer keeps under a key, oldest first. */
    ghost function Stored(key: string): seq<V>
      reads this, repr
      requires Valid()
    {
      StoredIn(chains, key)
    }

    constructor (size: nat)
      requires 0 < size
      ensures Valid() && fresh(repr) && bucketNumber == 0 && this.size == size
      ensures forall key :: Stored(key) == []
    {
      this.size := size;
      bucketNumber := 0;
      list := new List?<Pair<V>>[size](i => null);
      chains := seq(size, i => []);
      home := map[];
      new;
      repr := {list};
    }

    /** The oldest value under the key. */
    method Find(key: string) returns (found: Option<V>)
      requires Valid()
      ensures found == if Stored(key) == [] then None else Some(Stored(key)[0])
    {
      hide Values, NoneBefore, Bucket;
      var mainKey := Bucket(key, size);
      var chain := list[mainKey];
      if chain != null && chain.size != 0 {
        assert Holds(chain, chains[mainKey]);
        var pos, linker := FindLinker(chain, key);
        if linker == null {
          ValuesAbsent(chains[mainKey], key);
          return None;
        }
        ValuesFirst(chains[mainKey], pos, key);
        return Some(linker.pointer.value);
      }
      assert Holds(chain, chains[mainKey]);
      ValuesNone<V>(key);
      return None;
    }

    /** Adds the value behind those the key already has. */
    method Insert(key: string, value: V)
      requires Valid()
      modifies this, repr
      ensures Valid() && forall o :: o in repr ==> o in old(repr) || fresh(o)
      ensures Stored(key) == old(Stored(key)) + [value]
      ensures forall k :: k != key ==> Stored(k) == old(Stored(k))
      ensures bucketNumber == old(bucketNumber) + 1
    {
      hide Values, StoredIn, Placed, Bucket, List.Valid, Pointers;
      var mainKey := Bucket(key, size);
      var pair := Pair(key, value);
      if list[mainKey] == null {
        Open(mainKey);
      }
      Append(mainKey, pair);
      ChainsInserted(old(chains), key, value);
      bucketNumber := bucketNumber + 1;
    }

    /** Gives a bucket an empty list. */
    method Open(b: nat)
      requires Shape() && b < size && list[b] == null
      modifies this`repr, this`home, list
      ensures Shape() && list[b] != null
      ensures forall o :: o in repr ==> o in old(repr) || fresh(o)
    {
      var empty := new List<Pair<V>>();
      assert Holds(list[b], chains[b]);
      list[b] := empty;
      home := home[empty := b];
      repr := repr + {empty};
      assert forall i :: 0 <= i < size && i != b ==> list[i] == old(list[i]) && Holds(list[i], chains[i]);
    }

    /** Adds a pair to the end of a bucket's list. */
    method Append(b: nat, pair: Pair<V>)
      requires Shape() && b < size && list[b] != null
      modifies this`repr, this`home, this`chains, list[b], list[b].linkers
      ensures Shape() && chains == old(chains)[b := old(chains)[b] + [pair]]
      ensures forall o :: o in repr ==> o in old(repr) || fresh(o)
    {
      hide List.Valid, Pointers, Linked, Distinct, Holds;
      var chain := list[b];
      HoldsList(chain, chains[b]);
      chain.Push(pair);
      ghost var added := chain.linkers[|chain.linkers| - 1];
      home := home[added := b];
      repr := repr + {added};
      chains := chains[b := chains[b] + [pair]];
      HoldsItself(chain);
      assert forall i :: 0 <= i < size && i != b ==> list[i] == old(list[i]) && Holds(list[i], chains[i]);
    }

    /** Takes the pair at a position out of a bucket's list. */
    method TakeOut(b: nat, linker: Linker<Pair<V>>, count: nat)
      requires Shape() && b < size && list[b] != null && count < |list[b].linkers| && linker == list[b].linkers[count]
      modifies this`chains, list[b], list[b].linkers
      ensures |old(chains)[b]| == old(|list[b].linkers|)
      ensures Shape() && chains == old(chains)[b := Without(old(chains)[b], count)]
    {
      hide List.Valid, Pointers, Linked, Distinct, Holds;
      WithoutEnds(list[b].linkers, count);
      var chain := list[b];
      HoldsList(chain, chains[b]);
      DropLinker(chain, linker, count);
      chains := chains[b := Without(chains[b], count)];
      HoldsItself(chain);
      assert forall i :: 0 <= i < size && i != b ==> list[i] == old(list[i]) && Holds(list[i], chains[i]);
    }

    /** Takes the oldest value under the key away. The counter of pairs is not lowered. */
    method Delete(key: string) returns (deleted: bool)
      requires Valid()
      modifies this, repr
      ensures Valid() && repr == old(repr) && bucketNumber == old(bucketNumber)
      ensures deleted == (old(Stored(key)) != [])
      ensures Stored(key) == if deleted then old(Stored(key))[1..] else []
      ensures forall k :: k != key ==> Stored(k) == old(Stored(k))
    {
      hide Values, NoneBefore, Bucket, Placed;
      var mainKey := Bucket(key, size);
      var chain := list[mainKey];
      assert Holds(chain, chains[mainKey]);
      if chain == null || chain.size == 0 {
        ValuesNone<V>(key);
        return false;
      }
      var count, linker := FindLinker(chain, key);
      if linker == null {
        ValuesAbsent(chains[mainKey], key);
        return false;
      }
      ChainsDeleted(chains, key, count);
      TakeOut(mainKey, linker, count);
      return true;
    }
  }

  /** The list is the chain; no list is an empty chain. */
  ghost predicate Holds<V>(list: List?<Pair<V>>, chain: seq<Pair<V>>)
    reads list, if list != null then set n | n in list.linkers else {}
  {
    if list == null then chain == [] else list.Valid() && list.Contents() == chain
  }

  lemma HoldsList<V>(list: List<Pair<V>>, chain: seq<Pair<V>>)
    requires Holds(list, chain)
    ensures list.Valid() && list.Contents() == chain
  {}

  lemma HoldsItself<V>(list: List<Pair<V>>)
    requires list.Valid()
    ensures Holds(list, list.Contents())
  {}

  /** The list and its linkers belong to the bucket. */
  ghost predicate AtHome<V>(list: List<V>, home: map<object, nat>, b: nat)
    reads list
  {
    list in home && home[list] == b && forall n :: n in list.linkers ==> n in home && home[n] == b
  }

  /** The deletion of a linker met at a known position. */
  method DropLinker<V>(chain: List<V>, linker: Linker<V>, count: nat)
    requires chain.Valid() && count < |chain.linkers| && linker == chain.linkers[count]
    modifies chain, chain.linkers
    ensures chain.Valid() && chain.linkers == Without(old(chain.linkers), count)
    ensures chain.Contents() == Without(old(chain.Contents()), count)
  {
    WithoutEnds(chain.linkers, count);
    WithoutEnds(chain.Contents(), count);
    if count == 0 {
      chain.Pop();
    } else if count == chain.size - 1 {
      chain.Pull();
    } else {
      chain.Unlink(linker, count);
    }
  }

  /** The first linker of the chain with the key. */
  method FindLinker<V>(chain: List<Pair<V>>, key: string) returns (pos: nat, linker: Linker?<Pair<V>>)
    requires chain.Valid() && 0 < chain.size
    ensures pos <= chain.size && NoneBefore(chain.Contents(), pos, key)
    ensures linker == if pos < chain.size then chain.linkers[pos] else null
    ensures linker != null ==> linker.pointer.key == key
  {
    linker, pos := chain.start, 0;
    while linker != null && linker.pointer.key != key
      invariant pos <= chain.size && NoneBefore(chain.Contents(), pos, key)
      invariant linker == if pos < chain.size then chain.linkers[pos] else null
      decreases chain.size - pos
    {
      assert linker.next == After(chain.linkers, pos);
      linker := linker.next;
      pos := pos + 1;
    }
  }
}
