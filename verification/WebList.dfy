/** webserver/server_thread.c: the doubly linked list, which stands for a sequence. */
module WebList {
  import opened Sequences

  class Linker<T> {
    const pointer: T
    var next: Linker?<T>
    var prev: Linker?<T>

    constructor (pointer: T)
      ensures this.pointer == pointer
    {
      this.pointer := pointer;
      next, prev := null, null;
    }
  }

  /** The neighbours of the linker at position i. */
  ghost function After<T>(linkers: seq<Linker<T>>, i: nat): Linker?<T> {
    if i + 1 < |linkers| then linkers[i + 1] else null
  }

  ghost function Before<T>(linkers: seq<Linker<T>>, i: nat): Linker?<T> {
    if 0 < i <= |linkers| then linkers[i - 1] else null
  }

  /** Every linker points at its two neighbours. */
  ghost predicate Linked<T>(linkers: seq<Linker<T>>)
    reads linkers
  {
    && (forall i {:trigger After(linkers, i)} :: 0 <= i < |linkers| ==> linkers[i].next == After(linkers, i))
    && (forall i {:trigger Before(linkers, i)} :: 0 <= i < |linkers| ==> linkers[i].prev == Before(linkers, i))
  }

  /** What the linkers hold, in order. */
  ghost function Pointers<T>(linkers: seq<Linker<T>>): (s: seq<T>)
    ensures |s| == |linkers|
    ensures forall i :: 0 <= i < |s| ==> s[i] == linkers[i].pointer
  {
    seq(|linkers|, i requires 0 <= i < |linkers| => linkers[i].pointer)
  }

  class List<T> {
    var start: Linker?<T>
    var end: Linker?<T>
    var size: nat
    /** the linkers in order */
    ghost var linkers: seq<Linker<T>>

    ghost predicate Valid()
      reads this, linkers
    {
      && size == |linkers|
      && Distinct(linkers)
      && start == (if size == 0 then null else linkers[0])
      && end == (if size == 0 then null else linkers[size - 1])
      && Linked(linkers)
    }

    /** What the list holds, front first. */
    ghost function Contents(): (s: seq<T>)
      reads this
      ensures |s| == |linkers|
    {
      Pointers(linkers)
    }

    constructor ()
      ensures Valid() && linkers == []
    {
      start, end, size := null, null, 0;
      linkers := [];
    }

    /** Adds at the end. */
    method Push(p: T)
      requires Valid()
      modifies this, linkers
      ensures Valid() && Contents() == old(Contents()) + [p]
      ensures && |linkers| == |old(linkers)| + 1 && linkers == old(linkers) + [linkers[old(size)]]
              && fresh(linkers[old(size)])
    {
      hide Distinct, Pointers, After, Before;
      ghost var was := linkers;
      var newlinker := new Linker(p);
      PushDistinct(was, newlinker);
      PushPointers(was, newlinker);
      if was != [] { EndsApart(was); }
      assert forall j :: 0 <= j < |was| ==> was[j] != newlinker;
      if size == 0 {
        start := newlinker;
        end := newlinker;
        end.next := null;
        end.prev := null;
        size := size + 1;
      } else {
        newlinker.prev := end;
        end.next := newlinker;
        end := newlinker;
        end.next := null;
        size := size + 1;
      }
      linkers := linkers + [newlinker];
      forall i | 0 <= i < size ensures linkers[i].next == After(linkers, i) && linkers[i].prev == Before(linkers, i) {
        PushBetween(was, newlinker, i);
      }
    }

    /** Adds at the front. */
    method Put(p: T)
      requires Valid()
      modifies this, linkers
      ensures Valid() && Contents() == [p] + old(Contents())
      ensures |linkers| == |old(linkers)| + 1 && linkers == [linkers[0]] + old(linkers) && fresh(linkers[0])
      ensures start == linkers[0]
    {
      hide Distinct, Pointers, After, Before;
      ghost var was := linkers;
      FirstApart(was);
      var newlinker := new Linker(p);
      PutDistinct(was, newlinker);
      PutPointers(was, newlinker);
      assert forall j :: 0 <= j < |was| ==> was[j] != newlinker;
      if size == 0 {
        start := newlinker;
        end := newlinker;
        end.next := null;
        end.prev := null;
        size := size + 1;
      } else {
        newlinker.next := start;
        start.prev := newlinker;
        start := newlinker;
        start.prev := null;
        size := size + 1;
      }
      linkers := [newlinker] + linkers;
      assert newlinker.next == (if was == [] then null else was[0]) && newlinker.prev == null;
      assert forall j {:trigger After(was, j)} :: 0 <= j < |was| ==> was[j].next == After(was, j);
      assert forall j {:trigger Before(was, j)} :: 0 < j < |was| ==> was[j].prev == Before(was, j);
      assert was != [] ==> was[0].prev == newlinker;
      forall i | 0 <= i < size ensures linkers[i].next == After(linkers, i) && linkers[i].prev == Before(linkers, i) {
        PutBetween(was, newlinker, i);
      }
    }

    /** Takes the first element off; the source follows the first linker, so there must
        be one. */
    method Pop()
      requires Valid() && 0 < size
      modifies this, linkers
      ensures Valid() && Contents() == old(Contents())[1..] && linkers == old(linkers)[1..]
    {
      ghost var was := linkers;
      if size == 1 {
        start := null;
        end := null;
        size := size - 1;
      } else {
        assert start.next == After(linkers, 0);
        start := start.next;
        start.prev := null;
        size := size - 1;
      }
      linkers := linkers[1..];
      forall i | 0 <= i < size ensures linkers[i].next == After(linkers, i) && linkers[i].prev == Before(linkers, i) {
        assert linkers[i] == was[i + 1];
        assert old(was[i + 1].next) == After(was, i + 1) && old(was[i + 1].prev) == Before(was, i + 1);
      }
    }

    /** Takes the last element off. */
    method Pull()
      requires Valid() && 0 < size
      modifies this, linkers
      ensures Valid() && Contents() == old(Contents())[..old(size) - 1] && linkers == old(linkers)[..old(size) - 1]
    {
      ghost var was := linkers;
      if size == 1 {
        start := null;
        end := null;
        size := size - 1;
      } else {
        assert end.prev == Before(linkers, size - 1);
        end := end.prev;
        end.next := null;
        size := size - 1;
      }
      linkers := linkers[..size];
      forall i | 0 <= i < size ensures linkers[i].next == After(linkers, i) && linkers[i].prev == Before(linkers, i) {
        assert linkers[i] == was[i] && old(was[i].next) == After(was, i) && old(was[i].prev) == Before(was, i);
      }
    }

    method Top() returns (p: T)
      requires Valid() && 0 < size
      ensures p == Contents()[0]
    {
      p := start.pointer;
    }

    method Bot() returns (p: T)
      requires Valid() && 0 < size
      ensures p == Contents()[size - 1]
    {
      p := end.pointer;
    }

    /** Takes out a linker that has a neighbour on both sides. */
    method Unlink(temp: Linker<T>, ghost pos: nat)
      requires Valid() && 0 < pos < size - 1 && temp == linkers[pos]
      modifies this, linkers
      ensures Valid() && linkers == Without(old(linkers), pos)
      ensures Contents() == Without(old(Contents()), pos)
    {
      hide Distinct, Without, Pointers, After, Before;
      ghost var was := linkers;
      MovedDistinct(was, pos);
      DistinctFrom(was, pos);
      DistinctFrom(was, pos + 1);
      EndsOf(was, pos);
      WithoutPointers(was, pos);
      assert temp.next == After(was, pos) && temp.prev == Before(was, pos);
      temp.prev.next := temp.next;
      temp.next.prev := temp.prev;
      size := size - 1;
      linkers := Without(was, pos);
      assert forall j {:trigger After(was, j)} :: 0 <= j < |was| && j != pos - 1 ==> was[j].next == After(was, j);
      assert forall j {:trigger Before(was, j)} :: 0 <= j < |was| && j != pos + 1 ==> was[j].prev == Before(was, j);
      forall i | 0 <= i < size ensures linkers[i].next == After(linkers, i) && linkers[i].prev == Before(linkers, i) {
        WithoutBetween(was, pos, i);
      }
    }

    /** Takes out the element at a position, wherever it is. */
    method Delete(pos: int) returns (ret: int)
      requires Valid() && 0 < size
      modifies this, linkers
      ensures Valid()
      ensures ret == if 0 <= pos < old(size) then 1 else 0
      ensures Contents() == if ret == 1 then Without(old(Contents()), pos) else old(Contents())
    {
      if pos == 0 {
        Pop();
        return 1;
      } else if pos == size - 1 {
        Pull();
        return 1;
      } else if 0 < pos < size - 1 {
        var temp := start;
        var count := 0;
        while count != pos
          invariant 0 <= count <= pos && temp == linkers[count]
        {
          assert temp.next == After(linkers, count);
          temp := temp.next;
          count := count + 1;
        }
        Unlink(temp, pos);
        return 1;
      } else {
        return 0;
      }
    }

    /** Moves a linker of the list to the front, whether it was first, last or between. */
    method PMoveTop(pos: Linker?<T>, ghost at: nat) returns (ret: int)
      requires Valid() && (pos != null ==> at < size && pos == linkers[at])
      modifies this, linkers
      ensures Valid() && linkers == if pos == null then old(linkers) else MovedToTop(old(linkers), at)
      ensures Contents() == if pos == null then old(Contents()) else MovedToTop(old(Contents()), at)
      ensures ret == if pos == null then 0 else 1
    {
      if pos == null {
        return 0;
      }
      ghost var was := linkers;
      if size == 1 || pos == start {
        assert at == 0 && MovedToTop(was, 0) == was;
        assert MovedToTop(Contents(), 0) == Contents();
        return 1;
      }
      Relink(pos, at);
      assert Contents() == MovedToTop(old(Contents()), at);
      return 1;
    }

    /** The pointer updates of List_pmovetop for a linker other than the first. */
    method Relink(pos: Linker<T>, ghost at: nat)
      requires Valid() && 0 < at < size && pos == linkers[at]
      modifies this, linkers
      ensures Valid() && linkers == MovedToTop(old(linkers), at)
    {
      hide MovedToTop, Distinct, Pointers, After, Before;
      ghost var was := linkers;
      MovedDistinct(was, at);
      DistinctFrom(was, at);
      FirstApart(was);
      if at < size - 1 { DistinctFrom(was, at + 1); }
      MovedBetween(was, at, at);
      MovedBetween(was, at, at - 1);
      EndsOf(was, at);
      assert pos.next == After(was, at) && pos.prev == Before(was, at);
      if pos == end {
        pos.prev.next := null;
        end := pos.prev;
      } else {
        pos.prev.next := pos.next;
        pos.next.prev := pos.prev;
      }
      pos.prev := null;
      pos.next := start;
      start.prev := pos;
      start := pos;
      linkers := MovedToTop(was, at);
      assert forall j {:trigger After(was, j)} :: 0 <= j < |was| && j != at - 1 && j != at ==>
               was[j].next == After(was, j);
      assert forall j {:trigger Before(was, j)} :: 0 < j < |was| && j != at && j != at + 1 ==>
               was[j].prev == Before(was, j);
      forall i | 0 <= i < size ensures linkers[i].next == After(linkers, i) && linkers[i].prev == Before(linkers, i) {
        MovedBetween(was, at, i);
      }
      MovedBetween(was, at, size - 1);
    }
  }

  /** The neighbours in the new order, in terms of the old. */
  lemma MovedBetween<T>(s: seq<Linker<T>>, at: nat, i: nat)
    requires 0 < at < |s| && i < |s|
    ensures var r := MovedToTop(s, at);
            && (i == 0 ==> r[i] == s[at] && After(r, i) == s[0] && Before(r, i) == null)
            && (0 < i < at ==> r[i] == s[i - 1] && After(r, i) == After(s, i - 1))
            && (i == at ==> r[i] == s[at - 1] && After(r, i) == After(s, at))
            && (at < i ==> r[i] == s[i] && After(r, i) == After(s, i))
            && (i == 1 ==> Before(r, i) == s[at] && r[i] == s[0])
            && (1 < i <= at ==> r[i] == s[i - 1] && Before(r, i) == Before(s, i - 1))
            && (i == at + 1 ==> Before(r, i) == s[at - 1])
            && (at + 1 < i ==> Before(r, i) == Before(s, i))
  {}

  lemma PutBetween<T>(s: seq<Linker<T>>, x: Linker<T>, i: nat)
    requires i < |s| + 1
    ensures var r := [x] + s;
            && (i == 0 ==> r[i] == x && After(r, i) == (if s == [] then null else s[0]) && Before(r, i) == null)
            && (i == 1 ==> r[i] == s[0] && After(r, i) == After(s, 0) && Before(r, i) == x)
            && (1 < i ==> r[i] == s[i - 1] && After(r, i) == After(s, i - 1) && Before(r, i) == Before(s, i - 1))
  {}

  lemma FirstApart<T>(s: seq<T>)
    requires Distinct(s)
    ensures forall j :: 0 < j < |s| ==> s[j] != s[0]
  {}

  lemma PutPointers<T>(s: seq<Linker<T>>, x: Linker<T>)
    ensures Pointers([x] + s) == [x.pointer] + Pointers(s)
  {}

  lemma PushBetween<T>(s: seq<Linker<T>>, x: Linker<T>, i: nat)
    requires i < |s| + 1
    ensures var r := s + [x];
            && (i == |s| ==> r[i] == x && After(r, i) == null && Before(r, i) == (if s == [] then null else s[|s| - 1]))
            && (i == |s| - 1 ==> r[i] == s[i] && After(r, i) == x && Before(r, i) == Before(s, i))
            && (i < |s| - 1 ==> r[i] == s[i] && After(r, i) == After(s, i) && Before(r, i) == Before(s, i))
  {}

  lemma PushPointers<T>(s: seq<Linker<T>>, x: Linker<T>)
    ensures Pointers(s + [x]) == Pointers(s) + [x.pointer]
  {}

  lemma PushDistinct<T>(s: seq<T>, x: T)
    requires Distinct(s) && x !in s
    ensures Distinct(s + [x])
  {}

  lemma EndsApart<T>(s: seq<T>)
    requires Distinct(s) && s != []
    ensures forall j :: 0 <= j < |s| - 1 ==> s[j] != s[|s| - 1]
  {}

  lemma WithoutPointers<T>(s: seq<Linker<T>>, pos: nat)
    requires pos < |s|
    ensures Pointers(Without(s, pos)) == Without(Pointers(s), pos)
  {}

  lemma PutDistinct<T>(s: seq<T>, x: T)
    requires Distinct(s) && x !in s
    ensures Distinct([x] + s)
  {}

  lemma EndsOf<T>(s: seq<Linker<T>>, at: nat)
    requires 0 < at < |s|
    ensures After(s, at) == (if at == |s| - 1 then null else s[at + 1]) && Before(s, at) == s[at - 1]
    ensures After(s, |s| - 1) == null && Before(s, 0) == null
  {}

  lemma WithoutBetween<T>(s: seq<Linker<T>>, pos: nat, i: nat)
    requires 0 < pos < |s| - 1 && i < |s| - 1
    ensures var r := Without(s, pos);
            && (i < pos - 1 ==> r[i] == s[i] && After(r, i) == After(s, i))
            && (i == pos - 1 ==> r[i] == s[i] && After(r, i) == After(s, pos))
            && (pos <= i ==> r[i] == s[i + 1] && After(r, i) == After(s, i + 1))
            && (i < pos ==> Before(r, i) == Before(s, i))
            && (i == pos ==> Before(r, i) == Before(s, pos))
            && (pos < i ==> Before(r, i) == Before(s, i + 1))
  {}
}
