/** threads/thread.c: the singly linked queue, which stands for a sequence. */
module ThreadQueue {
  import opened Sequences

  class Linker<T> {
    var pointer: T
    var next: Linker?<T>

    constructor (pointer: T)
      ensures this.pointer == pointer && next == null
    {
      this.pointer := pointer;
      next := null;
    }
  }

  /** The linker that follows the one at position i. */
  ghost function After<T>(linkers: seq<Linker<T>>, i: nat): Linker?<T> {
    if i + 1 < |linkers| then linkers[i + 1] else null
  }

  class Queue<T> {
    var start: Linker?<T>
    var end: Linker?<T>
    var size: nat
    /** the linkers in order */
    ghost var linkers: seq<Linker<T>>

    ghost predicate Valid()
      reads this, linkers
    {
      && size == |linkers|
      && Distinct(linkers)
      && start == (if size == 0 then null else linkers[0])
      && end == (if size == 0 then null else linkers[size - 1])
      && (forall i {:trigger After(linkers, i)} :: 0 <= i < size ==> linkers[i].next == After(linkers, i))
    }

    /** What the queue holds, front first. */
    ghost function Contents(): (s: seq<T>)
      reads this, linkers
      ensures |s| == |linkers|
    {
      seq(|linkers|, i requires 0 <= i < |linkers| reads this, linkers => linkers[i].pointer)
    }

    /** The linkers as a frame. */
    ghost function Frame(): set<Linker<T>>
      reads this
    {
      set n | n in linkers
    }

    constructor ()
      ensures Valid() && Contents() == [] && linkers == []
    {
      start, end, size := null, null, 0;
      linkers := [];
    }

    method Push(p: T)
      requires Valid()
      modifies this, Frame()
      ensures Valid() && Contents() == old(Contents()) + [p]
      ensures fresh(Frame() - old(Frame()))
    {
      var newlinker := new Linker(p);
      ghost var was := linkers;
      if size == 0 {
        start := newlinker;
        end := newlinker;
        end.next := null;
        size := size + 1;
      } else {
        end.next := newlinker;
        end := newlinker;
        end.next := null;
        size := size + 1;
      }
      linkers := linkers + [newlinker];
      forall i | 0 <= i < size ensures linkers[i].next == After(linkers, i) {
        if i < |was| { assert linkers[i] == was[i] && old(was[i].next) == After(was, i); }
      }
    }

    /** The queue must not be empty: the source follows its first linker. */
    method Pop()
      requires Valid() && 0 < size
      modifies this
      ensures Valid() && Contents() == old(Contents())[1..]
      ensures Frame() <= old(Frame())
    {
      if size == 1 {
        start := null;
        end := null;
        size := size - 1;
      } else {
        assert start.next == After(linkers, 0);
        start := start.next;
        size := size - 1;
      }
      ghost var was := linkers;
      linkers := linkers[1..];
      forall i | 0 <= i < size ensures linkers[i].next == After(linkers, i) {
        assert linkers[i] == was[i + 1] && was[i + 1].next == After(was, i + 1);
      }
    }

    method Top() returns (p: T)
      requires Valid() && 0 < size
      ensures p == Contents()[0]
    {
      p := start.pointer;
    }

    /** The element behind the first one. */
    method Second() returns (p: T)
      requires Valid() && 1 < size
      ensures p == Contents()[1]
    {
      assert start.next == After(linkers, 0);
      p := start.next.pointer;
    }

    /** Moves the element at a position to the front, with both end pointers right. */
    method MoveTop(pos: int) returns (ret: int)
      requires Valid() && 0 < size
      modifies this, Frame()
      ensures Valid() && Frame() == old(Frame())
      ensures Contents() == if 0 <= pos < old(size) then MovedToTop(old(Contents()), pos) else old(Contents())
      ensures ret == if pos == 0 || (0 < pos && old(size) == 1) || 0 < pos < old(size) then 1 else 0
    {
      if pos < 0 {
        return 0;
      } else if pos == 0 {
        assert MovedToTop(Contents(), 0) == Contents();
        return 1;
      } else if size == 1 {
        return 1;
      } else if pos >= size {
        return 0;
      }
      var previous, current := start, start.next;
      assert current == After(linkers, 0);
      var counter := 1;
      while counter < pos
        invariant 1 <= counter <= pos && previous == linkers[counter - 1] && current == linkers[counter]
      {
        assert current.next == After(linkers, counter);
        previous := current;
        current := current.next;
        counter := counter + 1;
      }
      ghost var was := linkers;
      MovedDistinct(was, pos);
      Relink(previous, current, pos);
      hide MovedToTop, Queue.Valid;
      assert Frame() == old(Frame());
      assert Contents() == MovedToTop(old(Contents()), pos);
      ret := 1;
    }

    /** The pointer updates at the end of Queue_movetop. */
    method Relink(previous: Linker<T>, current: Linker<T>, ghost pos: nat)
      requires Valid() && 0 < pos < size && previous == linkers[pos - 1] && current == linkers[pos]
      modifies this, Frame()
      ensures Valid() && linkers == MovedToTop(old(linkers), pos)
      ensures forall n :: n in old(linkers) ==> n.pointer == old(n.pointer)
    {
      hide Distinct, MovedToTop;
      ghost var was := linkers;
      MovedDistinct(was, pos);
      DistinctFrom(was, pos);
      assert was[pos].next == After(was, pos) && previous in Frame() && current in Frame();
      if current == end {
        end := previous;
      }
      previous.next := current.next;
      current.next := start;
      start := current;
      linkers := MovedToTop(was, pos);
      forall j {:trigger After(was, j)} | 0 <= j < |was| && j != pos - 1 && j != pos
        ensures was[j].next == After(was, j)
      {
        assert old(was[j].next) == After(was, j);
      }
      hide After;
      forall i | 0 <= i < size ensures linkers[i].next == After(linkers, i) {
        MovedAfter(was, pos, i);
      }
    }

    /** Takes a linker other than the first out of the queue, as thread_exit does; the
        end pointer moves if it was the last. */
    method Unlink(prior: Linker<T>, current: Linker<T>, ghost pos: nat)
      requires Valid() && 0 < pos < size && prior == linkers[pos - 1] && current == linkers[pos]
      modifies this, Frame()
      ensures Valid() && linkers == Without(old(linkers), pos)
      ensures Contents() == Without(old(Contents()), pos) && Frame() <= old(Frame())
    {
      hide Distinct, Without;
      ghost var was := linkers;
      MovedDistinct(was, pos);
      DistinctFrom(was, pos);
      assert current.next == After(was, pos);
      if current == end {
        end := prior;
        prior.next := null;
      } else {
        prior.next := current.next;
      }
      size := size - 1;
      linkers := Without(was, pos);
      assert was[pos - 1].next == After(was, pos);
      assert forall j {:trigger After(was, j)} :: 0 <= j < |was| && j != pos - 1 ==> was[j].next == After(was, j);
      hide After;
      forall i | 0 <= i < size ensures linkers[i].next == After(linkers, i) {
        WithoutAfter(was, pos, i);
      }
      assert Contents() == Without(old(Contents()), pos);
    }
  }

  /** What follows in the new order, in terms of the old. */
  lemma MovedAfter<T>(s: seq<Linker<T>>, pos: nat, i: nat)
    requires 0 < pos < |s| && i < |s|
    ensures var r := MovedToTop(s, pos);
            && (i == 0 ==> r[i] == s[pos] && After(r, i) == s[0])
            && (0 < i < pos ==> r[i] == s[i - 1] && After(r, i) == After(s, i - 1))
            && (i == pos ==> r[i] == s[pos - 1] && After(r, i) == After(s, pos))
            && (pos < i ==> r[i] == s[i] && After(r, i) == After(s, i))
  {}

  lemma WithoutAfter<T>(s: seq<Linker<T>>, pos: nat, i: nat)
    requires 0 < pos < |s| && i < |s| - 1
    ensures var r := Without(s, pos);
            && (i < pos - 1 ==> r[i] == s[i] && After(r, i) == After(s, i))
            && (i == pos - 1 ==> r[i] == s[i] && After(r, i) == After(s, pos))
            && (pos <= i ==> r[i] == s[i + 1] && After(r, i) == After(s, i + 1))
  {}
}
