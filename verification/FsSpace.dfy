/** How many blocks a write needs, and how far it comes with those that are left. */
module FsSpace {
  import opened FsLayout
  import opened FsCodec
  import opened Arith
  import opened FsOwnership
  import opened FsAllocate
  import opened FsBytes

  // ---- which slots come into use ----

  /** Slot s is used on the way to one of the logical blocks lo..hi-1. */
  ghost predicate Visited(lo: nat, hi: nat, s: Slot) {
    exists k: nat :: lo <= k < hi && k < NR_MAX_BLOCK && Leads(s, SlotOf(k))
  }

  /** The slots that have come into use are those on the way to blocks lo..hi-1. */
  ghost predicate MapGrew(disk: Disk, d: Dinode, disk': Disk, d': Dinode, lo: nat, hi: nat) {
    && |d.direct| == |d'.direct| == NR_DIRECT_BLOCKS
    && forall s :: SlotOk(s) ==> (Ptr(disk', d', s) != 0 <==> Ptr(disk, d, s) != 0 || Visited(lo, hi, s))
  }

  /** A data slot is visited for its own block only. */
  lemma VisitedData(lo: nat, hi: nat, k: nat)
    requires k < NR_MAX_BLOCK
    ensures Visited(lo, hi, SlotOf(k)) <==> lo <= k < hi
  {
    hide SlotOf;
    if Visited(lo, hi, SlotOf(k)) {
      var j: nat :| lo <= j < hi && j < NR_MAX_BLOCK && Leads(SlotOf(k), SlotOf(j));
      assert SlotOf(j) == SlotOf(k);
      assert LogicalOf(SlotOf(j)) == j && LogicalOf(SlotOf(k)) == k;
    }
    assert lo <= k < hi ==> Leads(SlotOf(k), SlotOf(k));
  }

  /** The double-indirect block is visited for blocks past the direct and single-indirect
      ones. */
  lemma VisitedDouble(lo: nat, hi: nat)
    requires hi <= NR_MAX_BLOCK
    ensures Visited(lo, hi, Double) <==> lo < hi && NR_DIRECT_BLOCKS + NR_INDIRECT_BLOCKS < hi
  {
    if Visited(lo, hi, Double) {
      var k: nat :| lo <= k < hi && k < NR_MAX_BLOCK && Leads(Double, SlotOf(k));
    }
    if lo < hi && NR_DIRECT_BLOCKS + NR_INDIRECT_BLOCKS < hi { assert Leads(Double, SlotOf(hi - 1)); }
  }

  lemma VisitedNext(lo: nat, hi: nat, s: Slot)
    requires lo <= hi < NR_MAX_BLOCK
    ensures Visited(lo, hi + 1, s) <==> Visited(lo, hi, s) || Leads(s, SlotOf(hi))
  {
    hide SlotOf, Leads;
  }

  lemma GrewNothing(disk: Disk, d: Dinode, lo: nat)
    requires |d.direct| == NR_DIRECT_BLOCKS
    ensures MapGrew(disk, d, disk, d, lo, lo)
  {
    hide Ptr;
  }

  /** One more block. */
  lemma GrewNext(disk: Disk, d: Dinode, disk1: Disk, d1: Dinode, disk2: Disk, d2: Dinode, lo: nat, hi: nat)
    requires lo <= hi < NR_MAX_BLOCK
    requires MapGrew(disk, d, disk1, d1, lo, hi) && Mapped(disk1, d1, disk2, d2, SlotOf(hi))
    ensures MapGrew(disk, d, disk2, d2, lo, hi + 1)
  {
    hide Ptr, SlotOf, Leads, Visited;
    forall s | SlotOk(s) ensures Ptr(disk2, d2, s) != 0 <==> Ptr(disk, d, s) != 0 || Visited(lo, hi + 1, s) {
      VisitedNext(lo, hi, s);
    }
  }

  // ---- what blocks cost ----

  /** Slot s is empty and stays so while blocks lo..l-1 are mapped. */
  ghost predicate Missing(disk: Disk, d: Dinode, lo: nat, l: nat, s: Slot)
    requires |d.direct| == NR_DIRECT_BLOCKS && SlotOk(s)
  {
    Ptr(disk, d, s) == 0 && !Visited(lo, l, s)
  }

  /** What mapping block l takes once blocks lo..l-1 are mapped: a block for every slot
      on the way that is still empty. */
  ghost function StepCost(disk: Disk, d: Dinode, lo: nat, l: nat): nat
    requires |d.direct| == NR_DIRECT_BLOCKS && l < NR_MAX_BLOCK
  {
    var s := SlotOf(l);
    if !Missing(disk, d, lo, l, s) then 0
    else match s
      case SingleEntry(_) => 1 + if Missing(disk, d, lo, l, Single) then 1 else 0
      case PageEntry(p, _) =>
        1 + (if Missing(disk, d, lo, l, Page(p)) then 1 else 0) + if Missing(disk, d, lo, l, Double) then 1 else 0
      case _ => 1
  }

  /** What mapping blocks lo..hi-1 takes. */
  ghost function Needs(disk: Disk, d: Dinode, lo: nat, hi: nat): nat
    requires |d.direct| == NR_DIRECT_BLOCKS && hi <= NR_MAX_BLOCK
  {
    if hi <= lo then 0 else Needs(disk, d, lo, hi - 1) + StepCost(disk, d, lo, hi - 1)
  }

  lemma NeedsSteps(disk: Disk, d: Dinode, lo: nat, hi: nat)
    requires |d.direct| == NR_DIRECT_BLOCKS && lo <= hi <= NR_MAX_BLOCK
    ensures Needs(disk, d, lo, lo) == 0
    ensures hi < NR_MAX_BLOCK ==> Needs(disk, d, lo, hi + 1) == Needs(disk, d, lo, hi) + StepCost(disk, d, lo, hi)
  {}

  /** The cost of the next block now is what was foreseen. */
  lemma CostForeseen(disk: Disk, d: Dinode, disk': Disk, d': Dinode, lo: nat, l: nat)
    requires l < NR_MAX_BLOCK && MapGrew(disk, d, disk', d', lo, l)
    ensures Cost(disk', d', l) == StepCost(disk, d, lo, l)
  {
    hide SlotOf, Visited, GetInt;
    assert Ptr(disk', d', Single) == d'.indirect && Ptr(disk', d', Double) == d'.dindirect;
    hide Ptr;
  }

  lemma {:induction false} NeedsMonotone(disk: Disk, d: Dinode, lo: nat, a: nat, b: nat)
    requires |d.direct| == NR_DIRECT_BLOCKS && a <= b <= NR_MAX_BLOCK
    ensures Needs(disk, d, lo, a) <= Needs(disk, d, lo, b)
    decreases b
  {
    hide StepCost;
    if a < b { NeedsMonotone(disk, d, lo, a, b - 1); }
  }

  /** The first of the blocks lo..hi-1 that `available` blocks are not enough for. */
  ghost function Stop(disk: Disk, d: Dinode, available: int, lo: nat, l: nat, hi: nat): (stop: nat)
    requires |d.direct| == NR_DIRECT_BLOCKS && l <= hi <= NR_MAX_BLOCK
    ensures l <= stop <= hi
    decreases hi - l
  {
    if l == hi || Needs(disk, d, lo, l + 1) > available then l else Stop(disk, d, available, lo, l + 1, hi)
  }

  lemma {:induction false} StopIs(disk: Disk, d: Dinode, available: int, lo: nat, l: nat, stop: nat, hi: nat)
    requires |d.direct| == NR_DIRECT_BLOCKS && l <= stop <= hi <= NR_MAX_BLOCK
    requires stop == l || Needs(disk, d, lo, stop) <= available
    requires stop < hi ==> Needs(disk, d, lo, stop + 1) > available
    ensures Stop(disk, d, available, lo, l, hi) == stop
    decreases stop - l
  {
    hide Needs;
    if l < stop {
      NeedsMonotone(disk, d, lo, l + 1, stop);
      StopIs(disk, d, available, lo, l + 1, stop, hi);
    }
  }

  lemma {:induction false} StopFacts(disk: Disk, d: Dinode, available: int, lo: nat, l: nat, hi: nat)
    requires |d.direct| == NR_DIRECT_BLOCKS && l <= hi <= NR_MAX_BLOCK
    ensures var stop := Stop(disk, d, available, lo, l, hi);
            && (stop == l || Needs(disk, d, lo, stop) <= available)
            && (stop < hi ==> Needs(disk, d, lo, stop + 1) > available)
    decreases hi - l
  {
    hide Needs;
    if l < hi && Needs(disk, d, lo, l + 1) <= available { StopFacts(disk, d, available, lo, l + 1, hi); }
  }

  /** Inodes with the same slots in use need the same. */
  ghost predicate SameUse(disk: Disk, d: Dinode, disk': Disk, d': Dinode) {
    && |d.direct| == |d'.direct| == NR_DIRECT_BLOCKS
    && forall s :: SlotOk(s) ==> (Ptr(disk', d', s) != 0 <==> Ptr(disk, d, s) != 0)
  }

  lemma {:induction false} SameNeeds(disk: Disk, d: Dinode, disk': Disk, d': Dinode, lo: nat, hi: nat)
    requires SameUse(disk, d, disk', d') && hi <= NR_MAX_BLOCK
    ensures Needs(disk', d', lo, hi) == Needs(disk, d, lo, hi)
    decreases hi
  {
    hide Ptr, Visited, SlotOf;
    if lo < hi { SameNeeds(disk, d, disk', d', lo, hi - 1); }
  }

  /** Blocks that are mapped cost nothing. */
  lemma {:induction false} MappedNeedsNothing(disk: Disk, d: Dinode, lo: nat, hi: nat)
    requires |d.direct| == NR_DIRECT_BLOCKS && hi <= NR_MAX_BLOCK
    requires forall k: nat :: lo <= k < hi ==> Ptr(disk, d, SlotOf(k)) != 0
    ensures Needs(disk, d, lo, hi) == 0
    decreases hi
  {
    hide Ptr, SlotOf, Visited;
    if lo < hi { MappedNeedsNothing(disk, d, lo, hi - 1); }
  }

  // ---- writes ----

  /** The last block that a write of `len` bytes at `start` touches; a write of no
      bytes still touches one. */
  function LastBlock(start: nat, len: nat): nat {
    var p := if len == 0 then start else start + len - 1;
    Split(BLOCK_SIZE, p, 0);
    p / BLOCK_SIZE
  }

  /** The block after the last addressable one that the write touches. */
  function WriteEnd(start: nat, len: nat): (end: nat)
    ensures end <= NR_MAX_BLOCK
  {
    if LastBlock(start, len) < NR_MAX_BLOCK then LastBlock(start, len) + 1 else NR_MAX_BLOCK
  }

  lemma WriteEndAbove(start: nat, len: nat)
    requires BlockNr(start) < NR_MAX_BLOCK
    ensures BlockNr(start) < WriteEnd(start, len)
  {
    BlockNrMonotone(start, if len == 0 then start else start + len - 1);
  }

  /** What the write takes. */
  ghost function WriteNeeds(disk: Disk, d: Dinode, start: nat, len: nat): nat
    requires |d.direct| == NR_DIRECT_BLOCKS
  {
    Needs(disk, d, BlockNr(start), WriteEnd(start, len))
  }

  /** The write runs out of space: it needs more blocks than are left. */
  ghost predicate Fills(disk: Disk, d: Dinode, available: int, start: nat, len: nat)
    requires |d.direct| == NR_DIRECT_BLOCKS
  {
    BlockNr(start) < NR_MAX_BLOCK && available < WriteNeeds(disk, d, start, len)
  }

  /** The first block that the write does not store. */
  ghost function WriteStop(disk: Disk, d: Dinode, available: int, start: nat, len: nat): nat
    requires |d.direct| == NR_DIRECT_BLOCKS && BlockNr(start) < NR_MAX_BLOCK
  {
    WriteEndAbove(start, len);
    Stop(disk, d, available, BlockNr(start), BlockNr(start), WriteEnd(start, len))
  }

  /** How many bytes the write stores: whole blocks as far as there is space, and no byte
      past the last addressable one. */
  ghost function StoredLength(disk: Disk, d: Dinode, available: int, start: nat, len: nat): nat
    requires |d.direct| == NR_DIRECT_BLOCKS
  {
    if BlockNr(start) >= NR_MAX_BLOCK then 0
    else if Fills(disk, d, available, start, len) then
      var end := PositionOf(WriteStop(disk, d, available, start, len), 0);
      if end <= start then 0 else end - start
    else InRange(start, len)
  }

  /** How many of the bytes lie below the last addressable one. */
  function InRange(start: nat, len: nat): nat {
    if start + len <= MaxFile() then len else if start <= MaxFile() then MaxFile() - start else 0
  }

  /** A write without enough space stores exactly the bytes before the one block up to which
      the free blocks are enough and past which they are not. */
  lemma StoredIs(disk: Disk, d: Dinode, available: int, start: nat, len: nat, stop: nat)
    requires |d.direct| == NR_DIRECT_BLOCKS && BlockNr(start) <= stop < WriteEnd(start, len) && 0 <= available
    requires Needs(disk, d, BlockNr(start), stop) <= available < Needs(disk, d, BlockNr(start), stop + 1)
    ensures StoredLength(disk, d, available, start, len) ==
              if stop * BLOCK_SIZE <= start then 0 else stop * BLOCK_SIZE - start
  {
    WriteStops(disk, d, available, start, len, stop);
    hide Needs, BlockNr, LastBlock, WriteStop, Fills;
    assert PositionOf(stop, 0) == stop * BLOCK_SIZE;
  }

  /** It stops at block `stop`. */
  lemma WriteStops(disk: Disk, d: Dinode, available: int, start: nat, len: nat, stop: nat)
    requires |d.direct| == NR_DIRECT_BLOCKS && BlockNr(start) <= stop < WriteEnd(start, len) && 0 <= available
    requires Needs(disk, d, BlockNr(start), stop) <= available < Needs(disk, d, BlockNr(start), stop + 1)
    ensures Fills(disk, d, available, start, len) && WriteStop(disk, d, available, start, len) == stop
  {
    hide Needs, BlockNr, LastBlock;
    StopIs(disk, d, available, BlockNr(start), BlockNr(start), stop, WriteEnd(start, len));
    NeedsMonotone(disk, d, BlockNr(start), stop + 1, WriteEnd(start, len));
  }

  // ---- C ints ----

  /** The value of a size stored in a 32-bit int. */
  function Int32(x: nat): (i: int)
    ensures -0x8000_0000 <= i < 0x8000_0000 && i <= x
  {
    var r := x % 0x1_0000_0000;
    if r < 0x8000_0000 then r else r - 0x1_0000_0000
  }

  /** It is the size exactly below 2^31. */
  lemma Int32Iff(x: nat)
    ensures Int32(x) == x <==> x < 0x8000_0000
    ensures 0x8000_0000 <= x < 0x1_0000_0000 ==> Int32(x) < 0
  {}
}
