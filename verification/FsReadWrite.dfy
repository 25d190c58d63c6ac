/** fs/read_write.c: reading and writing byte ranges of a file. */
module FsReadWrite {
  import opened FsLayout
  import opened FsCodec
  import opened Arith
  import opened FsBitmap
  import opened FsOwnership
  import opened FsSuper
  import opened FsInode
  import opened FsAllocate
  import opened FsBytes
  import opened FsSpace

  // ---- testfs_write_data ----

  /** The block is mapped and then written. */
  lemma ChunkWritten(disk: Disk, ino: seq<Dinode>, disk1: Disk, ino1: seq<Dinode>, owner: Owners, n: nat, l: nat,
                     ix: nat, data: Bytes, b: int)
    requires n < |ino| && l < NR_MAX_BLOCK && ix < BLOCK_SIZE && ix + |data| <= BLOCK_SIZE && b > 0
    requires DataMap(disk, ino, disk1, ino1, n, SlotOf(l), b) && Fsck(disk1, ino1, owner) && ino1 == ino[n := ino1[n]]
    ensures b < |disk1| == DEVICE_BLOCKS && DATA_BLOCKS_START <= b
    ensures var disk2 := disk1[b := Splice(BlockView(disk, ino[n], l), ix, data)];
            && Fsck(disk2, ino1, owner)
            && BytesUpdated(disk, ino[n], disk2, ino1[n], PositionOf(l, ix), data)
            && OthersSame(disk, ino, disk2, ino1, n)
            && forall s :: SlotOk(s) ==> Ptr(disk2, ino1[n], s) == Ptr(disk1, ino1[n], s)
  {
    hide BlockView, SlotOf, GetInt, Ptr, FsckBut;
    assert Ptr(disk1, ino1[n], SlotOf(l)) == b;
    var block := Splice(BlockView(disk, ino[n], l), ix, data);
    RecordedAt(disk1, ino1, owner, n, SlotOf(l));
    DataWrite(disk1, ino1, owner, n, l, block);
    SpliceUpdates(disk, ino[n], disk1[b := block], ino1[n], l, ix, data);
  }

  lemma ChunkFailed(disk: Disk, ino: seq<Dinode>, disk1: Disk, ino1: seq<Dinode>, n: nat, l: nat, b: int)
    requires n < |ino| == |ino1| && ino1 == ino[n := ino1[n]]
    requires DataMap(disk, ino, disk1, ino1, n, Loose, b)
    ensures BytesUpdated(disk, ino[n], disk1, ino1[n], 0, [])
    ensures OthersSame(disk, ino, disk1, ino1, n)
    ensures forall k: nat :: k < NR_MAX_BLOCK ==> Ptr(disk1, ino1[n], SlotOf(k)) == Ptr(disk, ino[n], SlotOf(k))
  {
    hide BlockView, SlotOf, GetInt, Ptr;
    SameBlocksSameBytes(disk, ino[n], disk1, ino1[n]);
  }

  lemma DirectSlot(l: nat)
    requires l < NR_MAX_BLOCK
    ensures SlotOf(l).Direct? <==> l < NR_DIRECT_BLOCKS
    ensures l < NR_DIRECT_BLOCKS ==> SlotOf(l) == Direct(l)
    ensures SlotOf(l).SingleEntry? <==> NR_DIRECT_BLOCKS <= l < NR_DIRECT_BLOCKS + NR_INDIRECT_BLOCKS
  {}

  /** Block l could not be mapped: no data slot has changed, and a double-indirect block is
      left behind where no page could be taken. */
  ghost predicate NotMapped(disk: Disk, d: Dinode, disk': Disk, d': Dinode, l: nat, available: int)
    requires l < NR_MAX_BLOCK
  {
    && |d.direct| == |d'.direct| == NR_DIRECT_BLOCKS
    && (forall k: nat :: k < NR_MAX_BLOCK ==> Ptr(disk', d', SlotOf(k)) == Ptr(disk, d, SlotOf(k)))
    && (d'.dindirect != 0 <==> d.dindirect != 0 || (SlotOf(l).PageEntry? && available == 1))
  }

  /** One round of a write: the block is mapped, `data` is copied in at `ix`, and the
      block is written (fs/read_write.c:250-254, 269-273). */
  method WriteChunk(t: InodeTable, node: Inode, l: nat, ix: nat, data: Bytes) returns (ret: int)
    requires t.Cached(node) && l < NR_MAX_BLOCK && ix < BLOCK_SIZE && ix + |data| <= BLOCK_SIZE
    requires t.Valid() && t.Fsck()
    modifies t`ino, t`owner, t.sb, t.sb.blockFreemap.v, node`d, node`dirty
    ensures NoNewLoose(old(t.owner), t.owner)
    ensures t.sb.live == old(t.sb.live)
    ensures t.Valid() && t.Cached(node)
    ensures t.Fsck() <==> !Strands(old(t.sb.disk), old(node.d), l, old(t.sb.Available()))
    ensures ret < 0 <==> old(t.sb.Available()) < Cost(old(t.sb.disk), old(node.d), l)
    ensures ret < 0 ==> ret == -ENOSPC
    ensures ret >= 0 ==> t.Fsck() && t.sb.Available() == old(t.sb.Available()) - Cost(old(t.sb.disk), old(node.d), l)
    ensures ret >= 0 ==> BytesUpdated(old(t.sb.disk), old(node.d), t.sb.disk, node.d, PositionOf(l, ix), data)
    ensures ret < 0 ==> BytesUpdated(old(t.sb.disk), old(node.d), t.sb.disk, node.d, 0, [])
    ensures OthersSame(old(t.sb.disk), old(t.ino), t.sb.disk, t.ino, node.nr)
    ensures ret >= 0 ==> Mapped(old(t.sb.disk), old(node.d), t.sb.disk, node.d, SlotOf(l))
    ensures ret < 0 ==> NotMapped(old(t.sb.disk), old(node.d), t.sb.disk, node.d, l, old(t.sb.Available()))
    ensures SameFile(old(node.d), node.d)
    ensures node.dirty <==>
              old(node.dirty) || (0 < Cost(old(t.sb.disk), old(node.d), l) && 0 < old(t.sb.Available()))
    ensures t.FsckSave(node.nr) && (!t.Fsck() ==> Dangling(t, node))
    ensures l < NR_DIRECT_BLOCKS && ret < 0 ==>
              t.sb.disk == old(t.sb.disk) && t.ino == old(t.ino) && t.owner == old(t.owner) && node.d == old(node.d)
  {
    hide SuperBlock.Valid, BlockView, Accounts, DiskInode, InodeTable.Coherent, DinodeFits, InodeTable.Valid, GetInt,
         FsckBut, Ptr, SlotOf, Cost, Strands, DataMap;
    ghost var disk, ino := t.sb.disk, t.ino;
    var block;
    ret, block := AllocateBlock(t, node, l);
    if ret < 0 {
      ChunkFailed(disk, ino, t.sb.disk, t.ino, node.nr, l, ret);
    } else {
      ChunkWritten(disk, ino, t.sb.disk, t.ino, t.owner, node.nr, l, ix, data, ret);
      t.WriteDataBlock(ret, Splice(block, ix, data));
      FsckIsSave(t.sb.disk, t.ino, t.owner, node.nr);
    }
  }

  // ---- when a write loses the ownership invariant ----

  /** Direct entries in [lo, NR_DIRECT_BLOCKS) without a block. */
  function Unmapped(d: Dinode, lo: nat): nat
    requires |d.direct| == NR_DIRECT_BLOCKS
    decreases NR_DIRECT_BLOCKS - lo
  {
    if lo >= NR_DIRECT_BLOCKS then 0 else (if d.direct[lo] == 0 then 1 else 0) + Unmapped(d, lo + 1)
  }

  /** A write of blocks cur..last comes to the first single-indirect block with
      exactly one block left, after the direct blocks before it. */
  predicate StrandsFrom(d: Dinode, available: int, cur: nat, last: nat) {
    && |d.direct| == NR_DIRECT_BLOCKS
    && cur <= last && NR_DIRECT_BLOCKS <= last && cur < NR_DIRECT_BLOCKS + NR_INDIRECT_BLOCKS
    && d.indirect == 0 && available == 1 + Unmapped(d, cur)
  }

  /** The write of `len` bytes at `start` does. */
  predicate StrandsWrite(d: Dinode, available: int, start: nat, len: nat) {
    BlockNr(start) < NR_MAX_BLOCK && StrandsFrom(d, available, BlockNr(start), LastBlock(start, len))
  }

  lemma {:induction false} UnmappedSame(d: Dinode, d': Dinode, lo: nat)
    requires |d.direct| == |d'.direct| == NR_DIRECT_BLOCKS
    requires forall i :: lo <= i < NR_DIRECT_BLOCKS ==> (d'.direct[i] == 0 <==> d.direct[i] == 0)
    ensures Unmapped(d', lo) == Unmapped(d, lo)
    decreases NR_DIRECT_BLOCKS - lo
  {
    if lo < NR_DIRECT_BLOCKS { UnmappedSame(d, d', lo + 1); }
  }

  /** The cost of a direct and of a single-indirect block. */
  lemma CostOf(disk: Disk, d: Dinode, l: nat)
    requires |d.direct| == NR_DIRECT_BLOCKS && l < NR_MAX_BLOCK
    ensures l < NR_DIRECT_BLOCKS ==> Cost(disk, d, l) == if d.direct[l] == 0 then 1 else 0
    ensures NR_DIRECT_BLOCKS <= l < NR_DIRECT_BLOCKS + NR_INDIRECT_BLOCKS && d.indirect == 0 ==> Cost(disk, d, l) == 2
    ensures NR_DIRECT_BLOCKS <= l < NR_DIRECT_BLOCKS + NR_INDIRECT_BLOCKS && d.indirect != 0 ==> Cost(disk, d, l) <= 1
    ensures NR_DIRECT_BLOCKS <= l < NR_DIRECT_BLOCKS + NR_INDIRECT_BLOCKS && d.indirect == 0 ==>
              Ptr(disk, d, SlotOf(l)) == 0
  {
    hide GetInt;
  }

  lemma StrandsHere(disk: Disk, d: Dinode, available: int, cur: nat, last: nat)
    requires |d.direct| == NR_DIRECT_BLOCKS && cur < NR_MAX_BLOCK && cur <= last
    requires available < Cost(disk, d, cur)
    ensures Strands(disk, d, cur, available) <==> StrandsFrom(d, available, cur, last)
  {
    CostOf(disk, d, cur);
    DirectSlot(cur);
    hide Cost, SlotOf, Ptr;
  }

  /** What mapping block l does to the fields of the inode. */
  lemma MappedFields(disk: Disk, d: Dinode, disk': Disk, d': Dinode, l: nat)
    requires l < NR_MAX_BLOCK && Mapped(disk, d, disk', d', SlotOf(l))
    ensures |d.direct| == |d'.direct| == NR_DIRECT_BLOCKS
    ensures forall i: nat :: i < NR_DIRECT_BLOCKS ==> (d'.direct[i] != 0 <==> d.direct[i] != 0 || i == l)
    ensures d'.indirect != 0 <==> d.indirect != 0 || SlotOf(l).SingleEntry?
    ensures d'.dindirect != 0 <==> d.dindirect != 0 || SlotOf(l).PageEntry?
  {
    hide GetInt;
    DirectSlot(l);
    assert Ptr(disk, d, Single) == d.indirect && Ptr(disk', d', Single) == d'.indirect;
    assert Ptr(disk, d, Double) == d.dindirect && Ptr(disk', d', Double) == d'.dindirect;
    forall i: nat | i < NR_DIRECT_BLOCKS ensures d'.direct[i] != 0 <==> d.direct[i] != 0 || i == l {
      assert Ptr(disk, d, Direct(i)) == d.direct[i] && Ptr(disk', d', Direct(i)) == d'.direct[i];
    }
  }

  lemma StrandsStep(disk: Disk, d: Dinode, available: int, disk': Disk, d': Dinode, cur: nat, last: nat)
    requires cur < NR_MAX_BLOCK && cur <= last && Mapped(disk, d, disk', d', SlotOf(cur))
    requires available >= Cost(disk, d, cur)
    ensures StrandsFrom(d, available, cur, last) <==> StrandsFrom(d', available - Cost(disk, d, cur), cur + 1, last)
  {
    CostOf(disk, d, cur);
    DirectSlot(cur);
    MappedFields(disk, d, disk', d', cur);
    hide Cost, SlotOf, Ptr, Mapped;
    if cur < NR_DIRECT_BLOCKS { UnmappedSame(d, d', cur + 1); }
  }

  // ---- how far a write has come ----

  /** `done` bytes of buf are stored, from block `from` up to block nr. */
  ghost predicate Written(disk: Disk, ino: seq<Dinode>, disk': Disk, ino': seq<Dinode>, n: nat,
                          start: nat, buf: Bytes, done: nat, from: nat, nr: nat) {
    && n < |ino| == |ino'| && done <= |buf|
    && BytesUpdated(disk, ino[n], disk', ino'[n], start, buf[..done])
    && OthersSame(disk, ino, disk', ino', n)
    && MapGrew(disk, ino[n], disk', ino'[n], from, nr)
    && SameFile(ino[n], ino'[n])
  }

  lemma WrittenNothing(disk: Disk, ino: seq<Dinode>, n: nat, start: nat, buf: Bytes, from: nat)
    requires Sized(ino) && n < |ino|
    ensures Written(disk, ino, disk, ino, n, start, buf, 0, from, from)
    ensures BytesUpdated(disk, ino[n], disk, ino[n], start, buf[..0]) && OthersSame(disk, ino, disk, ino, n)
  {
    hide ByteAt, BlockView, Ptr, SlotOf;
    GrewNothing(disk, ino[n], from);
  }

  lemma WrittenStep(disk: Disk, ino: seq<Dinode>, disk1: Disk, ino1: seq<Dinode>, disk2: Disk, ino2: seq<Dinode>,
                    n: nat,
                    start: nat, buf: Bytes, done: nat, from: nat, nr: nat, len: nat)
    requires && Written(disk, ino, disk1, ino1, n, start, buf, done, from, nr) && done + len <= |buf|
             && from <= nr < NR_MAX_BLOCK
    requires n < |ino2| == |ino1|
    requires BytesUpdated(disk1, ino1[n], disk2, ino2[n], start + done, buf[done..done + len])
    requires OthersSame(disk1, ino1, disk2, ino2, n) && Mapped(disk1, ino1[n], disk2, ino2[n], SlotOf(nr))
    requires SameFile(ino1[n], ino2[n])
    ensures Written(disk, ino, disk2, ino2, n, start, buf, done + len, from, nr + 1)
  {
    hide ByteAt, BlockView, Ptr, SlotOf;
    GrewNext(disk, ino[n], disk1, ino1[n], disk2, ino2[n], from, nr);
    UpdatedThen(disk, ino[n], disk1, ino1[n], disk2, ino2[n], start, buf[..done], buf[done..done + len]);
    assert buf[..done] + buf[done..done + len] == buf[..done + len];
    OthersSameThen(disk, ino, disk1, ino1, disk2, ino2, n);
  }

  /** A step that changes no bytes keeps what is stored. */
  lemma WrittenThen(disk: Disk, ino: seq<Dinode>, disk1: Disk, ino1: seq<Dinode>, disk2: Disk, ino2: seq<Dinode>,
                    n: nat,
                    start: nat, buf: Bytes, done: nat, from: nat, nr: nat)
    requires Written(disk, ino, disk1, ino1, n, start, buf, done, from, nr)
    requires n < |ino2| == |ino1|
    requires BytesUpdated(disk1, ino1[n], disk2, ino2[n], 0, []) && OthersSame(disk1, ino1, disk2, ino2, n)
    ensures BytesUpdated(disk, ino[n], disk2, ino2[n], start, buf[..done])
    ensures OthersSame(disk, ino, disk2, ino2, n) && SameFile(ino[n], ino1[n])
  {
    hide ByteAt, BlockView, Ptr, SlotOf;
    OthersSameThen(disk, ino, disk1, ino1, disk2, ino2, n);
  }

  // ---- blocks beyond the end of a file ----

  /** DIVROUNDUP(i_size, BLOCK_SIZE) */
  function EndBlock(size: nat): nat {
    Split(BLOCK_SIZE, size + BLOCK_SIZE - 1, 0);
    (size + BLOCK_SIZE - 1) / BLOCK_SIZE
  }

  lemma EndBlockAbove(size: nat, l: nat)
    ensures PositionOf(l, 0) < size <==> l < EndBlock(size)
  {
    TimesMonotone(0, l, BLOCK_SIZE);
    Split(BLOCK_SIZE, size + BLOCK_SIZE - 1, l + 1);
    assert (l + 1) * BLOCK_SIZE == l * BLOCK_SIZE + BLOCK_SIZE;
  }

  /** What testfs_free_blocks relies on: direct and single-indirect blocks lie below
      the end of the file, and a double-indirect block only in a file that reaches
      past them. */
  ghost predicate Tight(disk: Disk, d: Dinode) {
    && |d.direct| == NR_DIRECT_BLOCKS && 0 <= d.size
    && (forall k: nat ::
          k < NR_DIRECT_BLOCKS + NR_INDIRECT_BLOCKS && k < NR_MAX_BLOCK && Ptr(disk, d, SlotOf(k)) != 0 ==>
            k < EndBlock(d.size))
    && (d.dindirect != 0 ==> NR_DIRECT_BLOCKS + NR_INDIRECT_BLOCKS <= EndBlock(d.size))
  }

  /** A write that ends by extending the size over what it stored keeps files tight. */
  lemma WrittenTight(disk: Disk, ino: seq<Dinode>, disk': Disk, ino': seq<Dinode>, n: nat,
                     start: nat, buf: Bytes, done: nat, from: nat, nr: nat, d': Dinode)
    requires Written(disk, ino, disk', ino', n, start, buf, done, from, nr) && Tight(disk, ino[n])
    requires && SamePointers(ino'[n], d') && ino[n].size <= d'.size && 0 < nr <= NR_MAX_BLOCK
             && PositionOf(nr - 1, 0) < d'.size
    ensures Tight(disk', d')
  {
    hide ByteAt, BlockView, SlotOf, EndBlock, GetInt, Visited;
    EndBlockAbove(d'.size, nr - 1);
    VisitedDouble(from, nr);
    assert Ptr(disk', ino'[n], Double) == d'.dindirect && Ptr(disk, ino[n], Double) == ino[n].dindirect;
    forall k: nat | k < NR_DIRECT_BLOCKS + NR_INDIRECT_BLOCKS && k < NR_MAX_BLOCK && Ptr(disk', d', SlotOf(k)) != 0
      ensures k < EndBlock(d'.size)
    {
      assert Ptr(disk', ino'[n], SlotOf(k)) == Ptr(disk', d', SlotOf(k));
      VisitedData(from, nr, k);
      EndBlockAbove(ino[n].size, k);
      EndBlockAbove(d'.size, k);
    }
    EndBlockAbove(ino[n].size, NR_DIRECT_BLOCKS + NR_INDIRECT_BLOCKS - 1);
    EndBlockAbove(d'.size, NR_DIRECT_BLOCKS + NR_INDIRECT_BLOCKS - 1);
  }

  /** Changing the size of an inode moves no block number. */
  lemma SizeStored(disk: Disk, ino: seq<Dinode>, owner: Owners, n: nat, d': Dinode)
    requires Fsck(disk, ino, owner) && n < |ino|
    requires SamePointers(ino[n], d') && d'.blockCount == ino[n].blockCount
    ensures Fsck(disk, ino[n := d'], owner)
    ensures BytesUpdated(disk, ino[n], disk, d', 0, [])
    ensures OthersSame(disk, ino, disk, ino[n := d'], n)
  {
    hide GetInt, SlotOf;
    var ino' := ino[n := d'];
    assert forall s :: SlotOk(s) ==> Ptr(disk, d', s) == Ptr(disk, ino[n], s);
    assert forall l :: 0 <= l < NR_MAX_BLOCK ==> BlockView(disk, d', l) == BlockView(disk, ino[n], l);
    SameBlocksSameBytes(disk, ino[n], disk, d');
    hide Ptr, BlockView;
    forall m: nat | m < |ino'| ensures Recorded(disk, ino'[m], m, owner) && Stored(disk, ino'[m], m, owner) {
      assert Recorded(disk, ino[m], m, owner) && Stored(disk, ino[m], m, owner);
    }
  }

  /** The inode with its size set to MAX(i_size, end). */
  function Extended(d: Dinode, end: int): Dinode {
    d.(size := if d.size >= end then d.size else end)
  }

  lemma LastBlockIs(start: nat, len: nat, nr: nat, off: nat)
    requires off < BLOCK_SIZE && start + len == PositionOf(nr, off) + 1 && 0 < len
    ensures LastBlock(start, len) == nr
  {
    DivMod(BLOCK_SIZE, nr, off);
  }

  lemma MaxFileFits()
    ensures 0 < MaxFile() < 0x8000_0000_0000_0000 && NR_DIRECT_BLOCKS + NR_INDIRECT_BLOCKS < NR_MAX_BLOCK
  {
    assert Relations(SHAPE);
    TimesMonotone(1, NR_MAX_BLOCK, BLOCK_SIZE);
    TimesMonotone(1, NR_INDIRECT_BLOCKS, NR_INDIRECT_BLOCKS);
  }

  /** The state of a write between two rounds: `done` bytes are stored, `size` bytes
      are left, the next byte is at `ix` in block nr. */
  predicate Position(start: nat, len: nat, nr: nat, ix: nat, done: nat, size: nat) {
    && done + size == len && ix < BLOCK_SIZE
    && PositionOf(nr, ix) == start + done
    && BlockNr(start) <= nr <= NR_MAX_BLOCK
    && (done == 0 ==> nr == BlockNr(start) && ix == BlockIx(start))
    && (done != 0 ==> ix == 0 && 0 < size)
  }

  lemma PositionStart(start: nat, len: nat)
    requires BlockNr(start) < NR_MAX_BLOCK
    ensures Position(start, len, BlockNr(start), BlockIx(start), 0, len)
  {
    Split(BLOCK_SIZE, start, 0);
  }

  lemma PositionNext(start: nat, len: nat, nr: nat, ix: nat, done: nat, size: nat)
    requires Position(start, len, nr, ix, done, size) && ix + size > BLOCK_SIZE && nr < NR_MAX_BLOCK
    ensures Position(start, len, nr + 1, 0, done + (BLOCK_SIZE - ix), size - (BLOCK_SIZE - ix))
    ensures nr < LastBlock(start, len)
  {
    assert (nr + 1) * BLOCK_SIZE == nr * BLOCK_SIZE + BLOCK_SIZE;
    var p := start + len - 1;
    Split(BLOCK_SIZE, p, nr + 1);
  }

  lemma PositionLast(start: nat, len: nat, nr: nat, ix: nat, done: nat, size: nat)
    requires Position(start, len, nr, ix, done, size) && ix + size <= BLOCK_SIZE
    ensures LastBlock(start, len) == nr
    ensures 0 < len ==> PositionOf(nr, 0) < start + len
  {
    if 0 < len { LastBlockIs(start, len, nr, ix + size - 1); }
  }

  lemma FsckSized(t: InodeTable)
    requires t.Fsck()
    ensures Sized(t.ino) && |t.ino| == NR_INODES
  {}

  lemma PositionBoundary(start: nat, len: nat, nr: nat, ix: nat, done: nat, size: nat)
    requires Position(start, len, nr, ix, done, size)
    ensures done == 0 || BlockIx(start + done) == 0
  {
    if done != 0 { DivMod(BLOCK_SIZE, nr, 0); }
  }

  /** Where a write that runs out of space at block `stop` has got to, with `left` blocks
      left: the blocks before it are mapped. */
  ghost predicate PartlyMapped(disk: Disk, d: Dinode, disk': Disk, d': Dinode, from: nat, stop: nat, left: int) {
    && |d.direct| == |d'.direct| == NR_DIRECT_BLOCKS
    && (forall k: nat :: k < NR_MAX_BLOCK ==>
          (Ptr(disk', d', SlotOf(k)) != 0 <==> Ptr(disk, d, SlotOf(k)) != 0 || from <= k < stop))
    && (d'.dindirect != 0 <==> d.dindirect != 0 || ReachesDouble(from, stop, left))
  }

  /** A double-indirect block is taken: for a block before `stop`, or for block `stop`,
      where it stays although the page cannot be had. */
  predicate ReachesDouble(from: nat, stop: nat, left: int) {
    || (from < stop && NR_DIRECT_BLOCKS + NR_INDIRECT_BLOCKS < stop)
    || (NR_DIRECT_BLOCKS + NR_INDIRECT_BLOCKS <= stop && left == 1)
  }

  lemma StopsPartly(disk: Disk, d: Dinode, disk1: Disk, d1: Dinode, disk2: Disk, d2: Dinode, from: nat, stop: nat,
                    left: int)
    requires from <= stop < NR_MAX_BLOCK
    requires MapGrew(disk, d, disk1, d1, from, stop) && NotMapped(disk1, d1, disk2, d2, stop, left)
    ensures PartlyMapped(disk, d, disk2, d2, from, stop, left)
  {
    hide SlotOf, Visited, GetInt;
    assert Ptr(disk, d, Double) == d.dindirect && Ptr(disk1, d1, Double) == d1.dindirect;
    VisitedDouble(from, stop);
    DirectSlot(stop);
    hide Ptr;
    forall k: nat | k < NR_MAX_BLOCK
      ensures Ptr(disk2, d2, SlotOf(k)) != 0 <==> Ptr(disk, d, SlotOf(k)) != 0 || from <= k < stop
    {
      VisitedData(from, stop, k);
    }
  }

  /** The bytes before block `stop`. */
  function BytesBefore(start: nat, stop: nat): nat {
    if PositionOf(stop, 0) <= start then 0 else PositionOf(stop, 0) - start
  }

  lemma PositionBytes(start: nat, len: nat, nr: nat, ix: nat, done: nat, size: nat)
    requires Position(start, len, nr, ix, done, size)
    ensures done == BytesBefore(start, nr)
  {}

  /** The rounds of a write but the last (fs/read_write.c:242-262). A negative result
      is -ENOSPC, at block nr; otherwise the remaining bytes fit block nr, or nr is out of
      range. */
  method WriteRounds(t: InodeTable, node: Inode, buf: Bytes, start: nat) returns (ret: int, nr: nat, ix: nat, done: nat)
    requires t.Cached(node) && BlockNr(start) < NR_MAX_BLOCK
    requires t.Valid() && t.Fsck()
    modifies t`ino, t`owner, t.sb, t.sb.blockFreemap.v, node`d, node`dirty
    ensures NoNewLoose(old(t.owner), t.owner)
    ensures t.sb.live == old(t.sb.live)
    ensures t.Valid() && t.Cached(node) && done <= |buf| && BlockNr(start) <= nr <= NR_MAX_BLOCK
    ensures ret < 0 ==> ret == -ENOSPC && nr < LastBlock(start, |buf|) && nr < NR_MAX_BLOCK
    ensures ret < 0 ==>
              && Needs(old(t.sb.disk), old(node.d), BlockNr(start), nr) <= old(t.sb.Available())
              && old(t.sb.Available()) < Needs(old(t.sb.disk), old(node.d), BlockNr(start), nr + 1)
    ensures ret < 0 ==>
              PartlyMapped(old(t.sb.disk), old(node.d), t.sb.disk, node.d, BlockNr(start), nr,
                           old(t.sb.Available()) - Needs(old(t.sb.disk), old(node.d), BlockNr(start), nr))
    ensures ret < 0 ==>
              (t.Fsck() <==> !StrandsFrom(old(node.d), old(t.sb.Available()), BlockNr(start), LastBlock(start, |buf|)))
    ensures ret < 0 ==> BytesUpdated(old(t.sb.disk), old(node.d), t.sb.disk, node.d, start, buf[..done])
    ensures ret < 0 ==>
              OthersSame(old(t.sb.disk), old(t.ino), t.sb.disk, t.ino, node.nr) && SameFile(old(node.d), node.d)
    ensures ret < 0 ==> done == BytesBefore(start, nr) && (done == 0 || BlockIx(start + done) == 0)
    ensures ret < 0 ==> t.FsckSave(node.nr) && (!t.Fsck() ==> Dangling(t, node))
    ensures ret < 0 ==> (node.dirty <==> old(node.dirty) || 0 < old(t.sb.Available()))
    ensures ret >= 0 ==> (node.dirty <==> old(node.dirty) || t.sb.Available() < old(t.sb.Available()))
    ensures ret >= 0 && nr == BlockNr(start) ==>
              t.sb.disk == old(t.sb.disk) && t.ino == old(t.ino) && t.owner == old(t.owner) && node.d == old(node.d)
    ensures ret >= 0 ==> t.Fsck() && Position(start, |buf|, nr, ix, done, |buf| - done)
    ensures ret >= 0 ==> nr == NR_MAX_BLOCK || ix + |buf| - done <= BLOCK_SIZE
    ensures ret >= 0 ==>
              Written(old(t.sb.disk), old(t.ino), t.sb.disk, t.ino, node.nr, start, buf, done, BlockNr(start), nr)
    ensures ret >= 0 ==>
              && 0 <= t.sb.Available()
              && t.sb.Available() == old(t.sb.Available()) - Needs(old(t.sb.disk), old(node.d), BlockNr(start), nr)
    ensures ret >= 0 ==> (StrandsFrom(old(node.d), old(t.sb.Available()), BlockNr(start), LastBlock(start, |buf|))
                          <==> StrandsFrom(node.d, t.sb.Available(), nr, LastBlock(start, |buf|)))
  {
    hide SuperBlock.Valid, BlockView, ByteAt, Accounts, DiskInode, InodeTable.Coherent, DinodeFits, InodeTable.Valid,
         GetInt, FsckBut, Ptr, SlotOf, Cost, Strands, StrandsFrom, DataMap, BytesUpdated, OthersSame, MapGrew,
         Written, Position, LastBlock, SuperBlock.Available, BlockNr, BlockIx, PositionOf, Needs, StepCost, NotMapped,
         Mapped, PartlyMapped, BytesBefore, Dangling;
    ghost var disk0, ino0, d0, n, available0 := t.sb.disk, t.ino, node.d, node.nr, t.sb.Available();
    PositionStart(start, |buf|);
    nr := BlockNr(start);
    ix := BlockIx(start);
    done := 0;
    ret := 0;
    ghost var from, last := nr, LastBlock(start, |buf|);
    FsckSized(t);
    AvailableIsNat(t);
    WrittenNothing(disk0, ino0, n, start, buf, from);
    NeedsSteps(disk0, d0, from, from);
    var size := |buf|;
    while ix + size > BLOCK_SIZE && nr < NR_MAX_BLOCK
      invariant t.sb.live == old(t.sb.live)
      invariant t.Valid() && t.Fsck() && t.Cached(node) && ret >= 0 && NoNewLoose(old(t.owner), t.owner)
      invariant 0 <= size && done + size == |buf| && ix < BLOCK_SIZE && from <= nr <= NR_MAX_BLOCK
      invariant Position(start, |buf|, nr, ix, done, size)
      invariant Written(disk0, ino0, t.sb.disk, t.ino, n, start, buf, done, from, nr)
      invariant 0 <= t.sb.Available() == available0 - Needs(disk0, d0, from, nr)
      invariant node.dirty <==> old(node.dirty) || t.sb.Available() < available0
      invariant StrandsFrom(d0, available0, from, last) <==> StrandsFrom(node.d, t.sb.Available(), nr, last)
      invariant nr == from ==>
                  t.sb.disk == disk0 && t.ino == ino0 && t.owner == old(t.owner) && node.d == old(node.d)
    {
      ghost var disk1, ino1, d1, available := t.sb.disk, t.ino, node.d, t.sb.Available();
      PositionNext(start, |buf|, nr, ix, done, size);
      PositionBoundary(start, |buf|, nr, ix, done, size);
      PositionStored(start, |buf|, nr, ix, done, size);
      PositionBytes(start, |buf|, nr, ix, done, size);
      WrittenGrew(disk0, ino0, disk1, ino1, n, start, buf, done, from, nr);
      CostForeseen(disk0, d0, disk1, d1, from, nr);
      NeedsSteps(disk0, d0, from, nr);
      var remain := BLOCK_SIZE - ix;
      ret := WriteChunk(t, node, nr, ix, buf[done..done + remain]);
      if ret < 0 {
        StrandsHere(disk1, d1, available, nr, last);
        WrittenThen(disk0, ino0, disk1, ino1, t.sb.disk, t.ino, n, start, buf, done, from, nr);
        StopsPartly(disk0, d0, disk1, d1, t.sb.disk, node.d, from, nr, available);
        return;
      }
      AvailableIsNat(t);
      StrandsStep(disk1, d1, available, t.sb.disk, node.d, nr, last);
      WrittenStep(disk0, ino0, disk1, ino1, t.sb.disk, t.ino, n, start, buf, done, from, nr, remain);
      size := size - remain;
      nr := nr + 1;
      ix := 0;
      done := done + remain;
    }
  }

  lemma WrittenGrew(disk: Disk, ino: seq<Dinode>, disk': Disk, ino': seq<Dinode>, n: nat,
                    start: nat, buf: Bytes, done: nat, from: nat, nr: nat)
    requires Written(disk, ino, disk', ino', n, start, buf, done, from, nr)
    ensures n < |ino| == |ino'| && MapGrew(disk, ino[n], disk', ino'[n], from, nr)
  {}

  lemma PositionStored(start: nat, len: nat, nr: nat, ix: nat, done: nat, size: nat)
    requires Position(start, len, nr, ix, done, size)
    ensures PositionOf(nr, ix) == start + done && ix < BLOCK_SIZE && BlockNr(start) <= nr && (size == 0 ==> len == 0)
  {}

  /** How a write at an addressable start ends; `full` tells that it runs out of space. */
  ghost predicate WriteOutcome(d: Dinode, d': Dinode, start: nat, len: nat, full: bool, ret: int, done: nat) {
    && d'.kind == d.kind
    && if full then
         // a prefix that is empty or ends at a block boundary is stored; the size is kept
         ret == -ENOSPC && (done == 0 || BlockIx(start + done) == 0) && d'.size == d.size
       else if start + len <= MaxFile() then
         // everything is stored; the size grows by what an int makes of the length
         ret == Int32(len) && done == len && d'.size == if len > 0 then Extended(d, start + Int32(len)).size else d.size
       else
         // the bytes up to the last addressable one are stored; the size is the maximum
         ret == -EFBIG && start + done == MaxFile() && d'.size == MaxFile()
  }

  lemma SizeFits(t: InodeTable, node: Inode, size: nat)
    requires t.Cached(node) && size <= MaxFile()
    requires t.Valid()
    ensures DinodeFits(node.d) && DinodeFits(node.d.(size := size))
  {
    MaxFileFits();
    hide SuperBlock.Valid, Counted, InodeTable.Coherent, MaxFile;
  }

  lemma PositionEnd(start: nat, len: nat, nr: nat, ix: nat, done: nat, size: nat)
    requires Position(start, len, nr, ix, done, size) && BlockNr(start) < NR_MAX_BLOCK
    ensures nr == NR_MAX_BLOCK ==> start + done == PositionOf(nr, 0) == MaxFile() < start + len
    ensures nr == NR_MAX_BLOCK ==> PositionOf(nr - 1, 0) < MaxFile()
    ensures nr < NR_MAX_BLOCK && ix + size <= BLOCK_SIZE ==> start + len <= MaxFile()
  {
    if nr == NR_MAX_BLOCK {
      Below(BLOCK_SIZE, nr - 1, 0, nr, 0);
    } else if ix + size <= BLOCK_SIZE {
      TimesMonotone(nr + 1, NR_MAX_BLOCK, BLOCK_SIZE);
      assert (nr + 1) * BLOCK_SIZE == nr * BLOCK_SIZE + BLOCK_SIZE;
    }
  }

  /** The write has stored its bytes up to block nr, and the size is set. */
  lemma Finish(disk: Disk, ino: seq<Dinode>, disk1: Disk, ino1: seq<Dinode>, owner: Owners, n: nat,
               start: nat, buf: Bytes, done: nat, from: nat, nr: nat, d': Dinode)
    requires Written(disk, ino, disk1, ino1, n, start, buf, done, from, nr) && Fsck(disk1, ino1, owner)
    requires SamePointers(ino1[n], d') && d'.blockCount == ino1[n].blockCount && d'.kind == ino1[n].kind
    ensures Fsck(disk1, ino1[n := d'], owner)
    ensures BytesUpdated(disk, ino[n], disk1, d', start, buf[..done])
    ensures OthersSame(disk, ino, disk1, ino1[n := d'], n) && SameFile(ino[n], ino1[n])
    ensures && ino[n].size <= d'.size && 0 < nr <= NR_MAX_BLOCK && PositionOf(nr - 1, 0) < d'.size
            && Tight(disk, ino[n]) ==>
              Tight(disk1, d')
  {
    hide FsckBut, BytesUpdated, OthersSame, Written, Tight, PositionOf;
    WrittenIndex(disk, ino, disk1, ino1, n, start, buf, done, from, nr);
    SizeStored(disk1, ino1, owner, n, d');
    WrittenThen(disk, ino, disk1, ino1, disk1, ino1[n := d'], n, start, buf, done, from, nr);
    if ino[n].size <= d'.size && 0 < nr <= NR_MAX_BLOCK && PositionOf(nr - 1, 0) < d'.size && Tight(disk, ino[n]) {
      WrittenTight(disk, ino, disk1, ino1, n, start, buf, done, from, nr, d');
    }
  }

  lemma WrittenIndex(disk: Disk, ino: seq<Dinode>, disk1: Disk, ino1: seq<Dinode>, n: nat, start: nat, buf: Bytes,
                     done: nat, from: nat, nr: nat)
    requires Written(disk, ino, disk1, ino1, n, start, buf, done, from, nr)
    ensures n < |ino| == |ino1| && SameFile(ino[n], ino1[n])
  {}

  lemma StrandsPast(d: Dinode, available: int, cur: nat, last: nat)
    requires cur >= NR_MAX_BLOCK || cur > last
    ensures !StrandsFrom(d, available, cur, last)
  {
    MaxFileFits();
  }

  /** Whether a write that runs out of space leaves a tight file with blocks past its end
      that testfs_free_blocks does not find. */
  ghost predicate Spills(disk: Disk, d: Dinode, available: int, start: nat, len: nat)
    requires |d.direct| == NR_DIRECT_BLOCKS && BlockNr(start) < NR_MAX_BLOCK
  {
    var from, stop := BlockNr(start), WriteStop(disk, d, available, start, len);
    var low := NR_DIRECT_BLOCKS + NR_INDIRECT_BLOCKS;
    && 0 <= d.size
    && (|| (from < stop && from < low && EndBlock(d.size) < stop && EndBlock(d.size) < low)
        || (EndBlock(d.size) < low && ReachesDouble(from, stop, available - Needs(disk, d, from, stop))))
  }

  lemma SpillsIff(disk: Disk, d: Dinode, disk': Disk, d': Dinode, available: int, start: nat, len: nat)
    requires |d.direct| == NR_DIRECT_BLOCKS && BlockNr(start) < NR_MAX_BLOCK && Tight(disk, d) && d'.size == d.size
    requires var from, stop := BlockNr(start), WriteStop(disk, d, available, start, len);
             PartlyMapped(disk, d, disk', d', from, stop, available - Needs(disk, d, from, stop))
    ensures Tight(disk', d') <==> !Spills(disk, d, available, start, len)
  {
    var from, stop := BlockNr(start), WriteStop(disk, d, available, start, len);
    MaxFileFits();
    hide Ptr, SlotOf, EndBlock, Needs, WriteStop, BlockNr;
    var last := if stop < NR_DIRECT_BLOCKS + NR_INDIRECT_BLOCKS then stop else NR_DIRECT_BLOCKS + NR_INDIRECT_BLOCKS;
    if from < last {
      assert Ptr(disk', d', SlotOf(last - 1)) != 0;
    }
  }

  /** All that a write does to the blocks of its inode. */
  ghost predicate WriteMaps(disk: Disk, d: Dinode, available: int, disk': Disk, d': Dinode, available': int,
                            start: nat, len: nat) {
    && |d.direct| == |d'.direct| == NR_DIRECT_BLOCKS && BlockNr(start) < NR_MAX_BLOCK
    && if Fills(disk, d, available, start, len) then
         var from, stop := BlockNr(start), WriteStop(disk, d, available, start, len);
         PartlyMapped(disk, d, disk', d', from, stop, available - Needs(disk, d, from, stop))
       else
         && MapGrew(disk, d, disk', d', BlockNr(start), WriteEnd(start, len))
         && available' == available - WriteNeeds(disk, d, start, len)
  }

  lemma NothingStored(disk: Disk, d: Dinode, available: int, start: nat, len: nat)
    requires |d.direct| == NR_DIRECT_BLOCKS && BlockNr(start) >= NR_MAX_BLOCK
    ensures StoredLength(disk, d, available, start, len) == 0
  {}

  /** A write that is stopped at block nr. */
  lemma FillsAt(disk: Disk, d: Dinode, available: int, disk': Disk, d': Dinode, available': int,
                start: nat, len: nat, nr: nat, done: nat)
    requires && |d.direct| == NR_DIRECT_BLOCKS && BlockNr(start) <= nr <= LastBlock(start, len) && nr < NR_MAX_BLOCK
             && 0 <= available
    requires Needs(disk, d, BlockNr(start), nr) <= available < Needs(disk, d, BlockNr(start), nr + 1)
    requires PartlyMapped(disk, d, disk', d', BlockNr(start), nr, available - Needs(disk, d, BlockNr(start), nr))
    requires done == BytesBefore(start, nr) && (done == 0 || BlockIx(start + done) == 0) && SameFile(d, d')
    ensures Fills(disk, d, available, start, len) && done == StoredLength(disk, d, available, start, len)
    ensures WriteOutcome(d, d', start, len, true, -ENOSPC, done)
    ensures WriteMaps(disk, d, available, disk', d', available', start, len)
  {
    hide Needs, BlockNr, LastBlock, BlockIx, PositionOf, Ptr, PartlyMapped, MaxFile, MapGrew, WriteStop;
    WriteStops(disk, d, available, start, len, nr);
    PartlySized(disk, d, disk', d', BlockNr(start), nr, available - Needs(disk, d, BlockNr(start), nr));
  }

  lemma PartlySized(disk: Disk, d: Dinode, disk': Disk, d': Dinode, from: nat, stop: nat, left: int)
    requires PartlyMapped(disk, d, disk', d', from, stop, left)
    ensures |d.direct| == |d'.direct| == NR_DIRECT_BLOCKS
  {}

  /** A write that has space for all its blocks in range, up to nr. */
  lemma EndsInRange(disk: Disk, d: Dinode, available: int, disk': Disk, d1: Dinode, d': Dinode, available': int,
                    start: nat, len: nat, nr: nat, done: nat, ret: int)
    requires BlockNr(start) < NR_MAX_BLOCK && nr == WriteEnd(start, len) && 0 <= available'
    requires MapGrew(disk, d, disk', d1, BlockNr(start), nr) && SamePointers(d1, d')
    requires available' == available - Needs(disk, d, BlockNr(start), nr)
    requires done == InRange(start, len) && d'.kind == d.kind
    requires if start + len <= MaxFile()
             then ret == Int32(len) && d'.size == if len > 0 then Extended(d, start + Int32(len)).size else d.size
             else ret == -EFBIG && d'.size == MaxFile()
    ensures !Fills(disk, d, available, start, len) && done == StoredLength(disk, d, available, start, len)
    ensures WriteOutcome(d, d', start, len, false, ret, done)
    ensures WriteMaps(disk, d, available, disk', d', available', start, len)
  {
    BlockNrBelow(start);
    hide Needs, BlockNr, LastBlock, BlockIx, PositionOf, MaxFile, Visited, GetInt, Int32, WriteEnd;
    assert forall s :: SlotOk(s) ==> Ptr(disk', d', s) == Ptr(disk', d1, s);
  }

  lemma WriteEndIs(start: nat, len: nat, nr: nat)
    requires nr == LastBlock(start, len) < NR_MAX_BLOCK
    ensures WriteEnd(start, len) == nr + 1
  {}

  lemma WriteEndPast(start: nat, len: nat)
    requires MaxFile() < start + len
    ensures WriteEnd(start, len) == NR_MAX_BLOCK
  {
    if 0 < len { BlockNrBelow(start + len - 1); } else { BlockNrBelow(start); }
  }

  lemma SizeKept(t: InodeTable, node: Inode)
    requires t.Cached(node)
    requires t.Valid()
    ensures DinodeFits(node.d)
  {
    hide SuperBlock.Valid, Counted, InodeTable.Coherent;
  }

  /** Stores the largest prefix of whole blocks of buf that there is space for: `done` is
      its length. It runs out of space exactly if fewer blocks are left than the blocks
      from the first to the last one touched need. The bytes of no other file, and no
      other bytes of this one, change. */
  method WriteData(t: InodeTable, node: Inode, buf: Bytes, start: nat) returns (ret: int, done: nat)
    requires t.Cached(node) && 0 <= node.d.size
    requires t.Valid() && t.Fsck()
    modifies t`ino, t`owner, t.sb, t.sb.blockFreemap.v, node`d, node`dirty
    ensures NoNewLoose(old(t.owner), t.owner)
    ensures t.sb.live == old(t.sb.live)
    ensures t.Valid() && t.Cached(node) && done <= |buf|
    ensures done == StoredLength(old(t.sb.disk), old(node.d), old(t.sb.Available()), start, |buf|)
    ensures BytesUpdated(old(t.sb.disk), old(node.d), t.sb.disk, node.d, start, buf[..done])
    ensures OthersSame(old(t.sb.disk), old(t.ino), t.sb.disk, t.ino, node.nr)
    // a start past the last addressable byte is answered with positive EFBIG
    ensures BlockNr(start) >= NR_MAX_BLOCK ==>
              && ret == EFBIG && done == 0 && node.d == old(node.d) && node.dirty == old(node.dirty)
              && t.sb.disk == old(t.sb.disk) && t.ino == old(t.ino) && t.owner == old(t.owner)
              && t.sb.Available() == old(t.sb.Available())
    ensures BlockNr(start) < NR_MAX_BLOCK ==>
              var full := Fills(old(t.sb.disk), old(node.d), old(t.sb.Available()), start, |buf|);
              && WriteOutcome(old(node.d), node.d, start, |buf|, full, ret, done)
              && WriteMaps(old(t.sb.disk), old(node.d), old(t.sb.Available()), t.sb.disk, node.d, t.sb.Available(),
                           start, |buf|)
              && (!full ==> node.dirty && t.Fsck())
              // out of space, the inode has unsaved changes if it has taken any block
              && (full ==> (node.dirty <==> old(node.dirty) || 0 < old(t.sb.Available())))
    // the condition under which all blocks of the file can be freed is kept
    ensures BlockNr(start) < NR_MAX_BLOCK && 0 < |buf| < 0x8000_0000 && old(node.d).size <= MaxFile() ==>
              !Fills(old(t.sb.disk), old(node.d), old(t.sb.Available()), start, |buf|) ==>
                (Tight(old(t.sb.disk), old(node.d)) ==> Tight(t.sb.disk, node.d))
    // ownership is lost exactly when the write ends at a new single-indirect block
    ensures t.Fsck() <==> !StrandsWrite(old(node.d), old(t.sb.Available()), start, |buf|)
    ensures t.FsckSave(node.nr) && (!t.Fsck() ==> Dangling(t, node))
    // a write inside one direct block that fails changes nothing
    ensures BlockNr(start) < NR_DIRECT_BLOCKS && LastBlock(start, |buf|) == BlockNr(start) &&
            Fills(old(t.sb.disk), old(node.d), old(t.sb.Available()), start, |buf|) ==>
              t.sb.disk == old(t.sb.disk) && t.ino == old(t.ino) && t.owner == old(t.owner) && node.d == old(node.d)
  {
    hide SuperBlock.Valid, BlockView, ByteAt, Accounts, DiskInode, InodeTable.Coherent, DinodeFits, InodeTable.Valid,
         GetInt, FsckBut, Ptr, SlotOf, Cost, Strands, StrandsFrom, DataMap, BytesUpdated, OthersSame, MapGrew,
         Written, Position, LastBlock, SuperBlock.Available, BlockNr, BlockIx, PositionOf, Tight, MaxFile, Needs,
         StepCost, NotMapped, Mapped, PartlyMapped, BytesBefore, Dangling, WriteEnd, WriteStop, Fills, WriteNeeds,
         StoredLength, WriteOutcome, WriteMaps, Int32;
    ghost var disk0, ino0, d0, available0 := t.sb.disk, t.ino, node.d, t.sb.Available();
    ghost var n, from, last := node.nr, BlockNr(start), LastBlock(start, |buf|);
    FsckSized(t);
    FsckIsSave(disk0, ino0, t.owner, n);
    AvailableIsNat(t);
    if BlockNr(start) >= NR_MAX_BLOCK {
      WrittenNothing(disk0, ino0, n, start, buf, 0);
      NothingStored(disk0, d0, available0, start, |buf|);
      return EFBIG, 0;
    }
    var nr, ix;
    ret, nr, ix, done := WriteRounds(t, node, buf, start);
    if ret < 0 {
      FillsAt(disk0, d0, available0, t.sb.disk, node.d, t.sb.Available(), start, |buf|, nr, done);
      return;
    }
    PositionEnd(start, |buf|, nr, ix, done, |buf| - done);
    ghost var disk1, ino1, d1, available := t.sb.disk, t.ino, node.d, t.sb.Available();
    if nr >= NR_MAX_BLOCK {
      SizeFits(t, node, PositionOf(nr, 0));
      t.Store(node, node.d.(size := PositionOf(nr, 0)));
      Finish(disk0, ino0, disk1, ino1, t.owner, n, start, buf, done, from, nr, node.d);
      StrandsPast(d1, available, nr, last);
      FsckIsSave(t.sb.disk, t.ino, t.owner, n);
      WriteEndPast(start, |buf|);
      WrittenGrew(disk0, ino0, disk1, ino1, n, start, buf, done, from, nr);
      EndsInRange(disk0, d0, available0, t.sb.disk, d1, node.d, t.sb.Available(), start, |buf|, nr, done, -EFBIG);
      return -EFBIG, done;
    }
    var data := buf[done..];
    PositionBoundary(start, |buf|, nr, ix, done, |data|);
    PositionStored(start, |buf|, nr, ix, done, |data|);
    PositionLast(start, |buf|, nr, ix, done, |data|);
    PositionBytes(start, |buf|, nr, ix, done, |data|);
    WrittenGrew(disk0, ino0, disk1, ino1, n, start, buf, done, from, nr);
    CostForeseen(disk0, d0, disk1, d1, from, nr);
    NeedsSteps(disk0, d0, from, nr);
    ret := WriteChunk(t, node, nr, ix, data);
    if ret < 0 {
      StrandsHere(disk1, d1, available, nr, last);
      WrittenThen(disk0, ino0, disk1, ino1, t.sb.disk, t.ino, n, start, buf, done, from, nr);
      StopsPartly(disk0, d0, disk1, d1, t.sb.disk, node.d, from, nr, available);
      FillsAt(disk0, d0, available0, t.sb.disk, node.d, t.sb.Available(), start, |buf|, nr, done);
      return;
    }
    AvailableIsNat(t);
    StrandsStep(disk1, d1, available, t.sb.disk, node.d, nr, last);
    StrandsPast(node.d, t.sb.Available(), nr + 1, last);
    assert buf[done..done + |data|] == data;
    WrittenStep(disk0, ino0, disk1, ino1, t.sb.disk, t.ino, n, start, buf, done, from, nr, |data|);
    done := |buf|;
    ghost var disk2, ino2, d2 := t.sb.disk, t.ino, node.d;
    WrittenIndex(disk0, ino0, disk2, ino2, n, start, buf, done, from, nr + 1);
    var end := start + Int32(|buf|);
    Int32Iff(|buf|);
    if |data| > 0 && end > node.d.size {
      SizeFits(t, node, end);
      t.Store(node, node.d.(size := end));
    } else {
      SizeKept(t, node);
      t.Store(node, node.d);
    }
    Finish(disk0, ino0, disk2, ino2, t.owner, n, start, buf, done, from, nr + 1, node.d);
    FsckIsSave(t.sb.disk, t.ino, t.owner, n);
    ret := Int32(|buf|);
    WriteEndIs(start, |buf|, nr);
    WrittenGrew(disk0, ino0, disk2, ino2, n, start, buf, done, from, nr + 1);
    EndsInRange(disk0, d0, available0, t.sb.disk, d2, node.d, t.sb.Available(), start, |buf|, nr + 1, done, ret);
  }

  // ---- testfs_read_data ----

  /** The bytes of the file from `start`, clipped at the end of the file; the result is
      what an int makes of the requested size even then. The source has undefined behaviour when a start in
      range lies beyond the end of the file; its callers check for that. */
  method ReadData(t: InodeTable, node: Inode, start: nat, size: nat) returns (ret: int, data: Bytes)
    requires t.Cached(node) && 0 <= node.d.size <= MaxFile()
    requires start <= node.d.size || BlockNr(start) >= NR_MAX_BLOCK
    requires t.Valid() && t.Fsck()
    ensures BlockNr(start) >= NR_MAX_BLOCK ==> ret == EFBIG && data == []
    ensures BlockNr(start) < NR_MAX_BLOCK ==>
              && ret == Int32(size)
              && data == Slice(t.sb.disk, node.d, start,
                               if start + size > node.d.size then node.d.size - start else size)
  {
    hide SuperBlock.Valid, BlockView, ByteAt, Accounts, DiskInode, InodeTable.Coherent, DinodeFits, InodeTable.Valid,
         GetInt, FsckBut, Ptr, SlotOf, Position, SuperBlock.Available, BlockNr, BlockIx, PositionOf, MaxFile,
         FileByte;
    data := [];
    var nr: nat := BlockNr(start);
    var ix: nat := BlockIx(start);
    if nr >= NR_MAX_BLOCK {
      return EFBIG, data;
    }
    BlockNrBelow(start);
    ghost var disk, d := t.sb.disk, node.d;
    var len := if start + size > node.d.size then node.d.size - start else size;
    var left := len;
    PositionStart(start, len);
    while ix + left > BLOCK_SIZE
      invariant 0 <= left <= len && 0 <= ix < BLOCK_SIZE && 0 <= nr
      invariant nr < NR_MAX_BLOCK && Position(start, len, nr, ix, len - left, left)
      invariant data == Slice(disk, d, start, len - left)
    {
      var remain := BLOCK_SIZE - ix;
      var phy, block := ReadBlock(t, node, nr);
      PositionStored(start, len, nr, ix, len - left, left);
      SliceStep(disk, d, start, len - left, nr, ix, remain);
      PositionNext(start, len, nr, ix, len - left, left);
      LastInRange(start, len);
      data := data + block[ix..];
      assert block[ix..] == block[ix..ix + remain];
      left := left - remain;
      nr := nr + 1;
      ix := 0;
    }
    var phy, block := ReadBlock(t, node, nr);
    PositionStored(start, len, nr, ix, len - left, left);
    SliceStep(disk, d, start, len - left, nr, ix, left);
    data := data + block[ix..ix + left];
    ret := Int32(size);
  }

  /** The range checks inside the read loop (fs/read_write.c:85, 100) never fire. */
  lemma LastInRange(start: nat, len: nat)
    requires start + len <= MaxFile() && 0 < len
    ensures LastBlock(start, len) < NR_MAX_BLOCK
  {
    BlockNrBelow(start + len - 1);
  }
}
