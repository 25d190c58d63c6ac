/** fs/inode.c: creating and removing inodes, and the invariant that files keep
    between operations. */
module FsFiles {
  import opened FsLayout
  import opened FsCodec
  import opened Arith
  import opened FsBitmap
  import opened FsOwnership
  import opened FsSuper
  import opened FsInode
  import opened FsAllocate
  import opened FsBytes
  import opened FsReadWrite
  import opened FsFree

  /** The bytes of inode n up to its size. */
  ghost function Content(disk: Disk, ino: seq<Dinode>, n: nat): Bytes
    requires n < |ino|
  {
    if ino[n].size < 0 then [] else Slice(disk, ino[n], 0, ino[n].size)
  }

  /** Every block below the end of the file is mapped. */
  ghost predicate Solid(disk: Disk, d: Dinode) {
    && |d.direct| == NR_DIRECT_BLOCKS && 0 <= d.size
    && forall k: nat :: k < NR_MAX_BLOCK && k < EndBlock(d.size) ==> Ptr(disk, d, SlotOf(k)) != 0
  }

  /** A live inode has a type and a size in range; directories have no holes. */
  ghost predicate FileOk(disk: Disk, d: Dinode) {
    && (d.kind == I_FILE || d.kind == I_DIR) && 0 <= d.size <= MaxFile()
    && (d.kind == I_DIR ==> Solid(disk, d))
  }

  /** No block that testfs_free_blocks would miss, and nothing but zeros past the end. */
  ghost predicate Whole(disk: Disk, d: Dinode) {
    Tight(disk, d) && ZeroBeyond(disk, d)
  }

  /** Live inodes are in order, and whole but for those on which a write has run out of
      space (`torn`); the slots of the others are zero. */
  ghost predicate Inodes(disk: Disk, ino: seq<Dinode>, live: set<nat>, torn: set<nat>) {
    && |ino| == NR_INODES && torn <= live
    && (forall n :: n in live ==> n < |ino| && FileOk(disk, ino[n]) && (n !in torn ==> Whole(disk, ino[n])))
    && (forall n: nat :: n < |ino| && n !in live ==> ino[n] == NoInode())
  }

  /** What all operations keep, those that run out of space included. */
  ghost predicate Files(t: InodeTable, torn: set<nat>)
    reads t, t.sb
  {
    && t.Fsck() && Settled(t.owner) && Inodes(t.sb.disk, t.ino, t.sb.live, torn)
  }

  /** More inodes may count as torn. */
  lemma FilesTorn(t: InodeTable, torn: set<nat>, torn': set<nat>)
    requires Files(t, torn) && torn <= torn' <= t.sb.live
    ensures Files(t, torn')
  {
    hide FsckBut, FileOk, Whole, NoInode;
  }

  // ---- frames ----

  /** Storing to fields that hold no block numbers, and writing outside the data
      region, moves no block. */
  lemma FilesFrame(disk: Disk, ino: seq<Dinode>, owner: Owners, skip: int, disk': Disk, n: nat, d': Dinode)
    requires FsOwnership.FsckSave(disk, ino, owner, skip) && n < |ino| && SameData(disk, disk')
    requires SamePointers(ino[n], d') && d'.blockCount == ino[n].blockCount
    ensures FsOwnership.FsckSave(disk', ino[n := d'], owner, skip)
    ensures OthersSame(disk, ino, disk', ino[n := d'], n)
    ensures BytesUpdated(disk, ino[n], disk', d', 0, [])
    ensures forall s :: SlotOk(s) ==> Ptr(disk', d', s) == Ptr(disk, ino[n], s)
  {
    hide GetInt, SlotOf;
    var ino' := ino[n := d'];
    forall m: nat | m < |ino|
      ensures forall s :: SlotOk(s) ==> Ptr(disk', ino'[m], s) == Ptr(disk, ino[m], s)
      ensures forall l :: 0 <= l < NR_MAX_BLOCK ==> BlockView(disk', ino'[m], l) == BlockView(disk, ino[m], l)
    {
      SameDataMap(disk, disk', ino[m], ino'[m], m, owner);
    }
    hide Ptr, BlockView;
    SameBlocksSameBytes(disk, ino[n], disk', d');
    forall m: nat | m < |ino'|
      ensures Own(disk', ino'[m], m, owner)
      ensures m != skip ==> Recorded(disk', ino'[m], m, owner) && Stored(disk', ino'[m], m, owner)
    {
      assert Own(disk, ino[m], m, owner);
      assert m != skip ==> Recorded(disk, ino[m], m, owner) && Stored(disk, ino[m], m, owner);
    }
  }

  lemma SameDataMap(disk: Disk, disk': Disk, d: Dinode, d': Dinode, m: nat, owner: Owners)
    requires |d.direct| == NR_DIRECT_BLOCKS && Own(disk, d, m, owner) && SameData(disk, disk') && SamePointers(d, d')
    ensures forall s :: SlotOk(s) ==> Ptr(disk', d', s) == Ptr(disk, d, s)
    ensures forall l :: 0 <= l < NR_MAX_BLOCK ==> BlockView(disk', d', l) == BlockView(disk, d, l)
  {
    PtrOwnFrame(disk, disk', d, m, owner);
    hide GetInt, SlotOf;
    assert forall s :: SlotOk(s) ==> Ptr(disk', d', s) == Ptr(disk', d, s);
    hide Ptr;
    forall l | 0 <= l < NR_MAX_BLOCK ensures BlockView(disk', d', l) == BlockView(disk, d, l) {
      assert Ptr(disk', d', SlotOf(l)) == Ptr(disk, d, SlotOf(l));
    }
  }

  /** Inodes other than n stay in order, and so does what they hold. */
  lemma OthersInOrder(disk: Disk, ino: seq<Dinode>, disk': Disk, ino': seq<Dinode>, n: nat)
    requires OthersSame(disk, ino, disk', ino', n)
    ensures forall m: nat :: m < |ino| && m != n ==>
              && ino'[m] == ino[m] && Content(disk', ino', m) == Content(disk, ino, m)
              && (FileOk(disk, ino[m]) ==> FileOk(disk', ino'[m])) && (Whole(disk, ino[m]) ==> Whole(disk', ino'[m]))
  {
    forall m: nat | m < |ino| && m != n
      ensures ino'[m] == ino[m] && Content(disk', ino', m) == Content(disk, ino, m)
      ensures (FileOk(disk, ino[m]) ==> FileOk(disk', ino'[m])) && (Whole(disk, ino[m]) ==> Whole(disk', ino'[m]))
    {
      if ino[m].size >= 0 { SliceOther(disk, ino, disk', ino', n, m, 0, ino[m].size); }
      if ZeroBeyond(disk, ino[m]) { SameBlocksZero(disk, ino[m], disk', ino'[m]); }
      hide ZeroBeyond, Ptr, SlotOf, EndBlock, Slice, BlockView;
    }
  }

  /** Writes outside the data region leave every file in order. */
  lemma FilesSameData(disk: Disk, ino: seq<Dinode>, owner: Owners, live: set<nat>, torn: set<nat>, disk': Disk)
    requires FsOwnership.Fsck(disk, ino, owner) && Inodes(disk, ino, live, torn) && SameData(disk, disk')
    ensures FsOwnership.Fsck(disk', ino, owner) && Inodes(disk', ino, live, torn)
  {
    hide GetInt, SlotOf, EndBlock, NoInode, FileByte;
    FsckIsSave(disk, ino, owner, -1);
    forall m: nat | m < |ino|
      ensures forall s :: SlotOk(s) ==> Ptr(disk', ino[m], s) == Ptr(disk, ino[m], s)
      ensures ZeroBeyond(disk, ino[m]) ==> ZeroBeyond(disk', ino[m])
    {
      SameDataMap(disk, disk', ino[m], ino[m], m, owner);
      if ZeroBeyond(disk, ino[m]) { SameBlocksZero(disk, ino[m], disk', ino[m]); }
    }
    hide ZeroBeyond;
    hide Ptr;
    forall m: nat | m < |ino| ensures Recorded(disk', ino[m], m, owner) && Stored(disk', ino[m], m, owner) {
      assert Recorded(disk, ino[m], m, owner) && Stored(disk, ino[m], m, owner);
    }
  }

  /** One more live inode, in order. */
  lemma InodesAdd(disk: Disk, ino: seq<Dinode>, live: set<nat>, torn: set<nat>, disk': Disk, ino': seq<Dinode>, n: nat)
    requires && Inodes(disk, ino, live, torn) && n < |ino| && OthersSame(disk, ino, disk', ino', n)
             && FileOk(disk', ino'[n])
    ensures Inodes(disk', ino', live + {n}, torn + {n})
    ensures Whole(disk', ino'[n]) ==> Inodes(disk', ino', live + {n}, torn)
  {
    OthersInOrder(disk, ino, disk', ino', n);
    hide FileOk, Whole, NoInode, OthersSame, Content;
  }

  /** One live inode fewer: its slot is zero. */
  lemma InodesRemove(disk: Disk, ino: seq<Dinode>, live: set<nat>, torn: set<nat>, disk': Disk, ino': seq<Dinode>,
                     n: nat)
    requires Inodes(disk, ino, live, torn) && n < |ino| && OthersSame(disk, ino, disk', ino', n) && ino'[n] == NoInode()
    ensures Inodes(disk', ino', live - {n}, torn - {n})
  {
    OthersInOrder(disk, ino, disk', ino', n);
    hide FileOk, Whole, NoInode, OthersSame, Content;
  }

  /** The inodes that are not whole, after a change to inode n. */
  ghost function Torn(torn: set<nat>, disk: Disk, d: Dinode, n: nat): set<nat> {
    if Whole(disk, d) then torn - {n} else torn + {n}
  }

  lemma InodesTorn(disk: Disk, ino: seq<Dinode>, live: set<nat>, torn: set<nat>, n: nat)
    requires Inodes(disk, ino, live, torn) && n in live
    ensures n < |ino| && Inodes(disk, ino, live, Torn(torn, disk, ino[n], n))
  {
    hide FileOk, Whole, NoInode;
  }

  lemma EmptySize()
    ensures NoInode().size == 0 && NoInode().blockCount == 0
  {}

  lemma NoInodeFits(kind: int)
    requires Fits32(kind)
    ensures && DinodeFits(NoInode()) && DinodeFits(NoInode().(kind := kind))
            && SamePointers(NoInode(), NoInode().(kind := kind))
  {}

  lemma EndOfNothing()
    ensures EndBlock(0) == 0
  {
    EndBlockAbove(0, 0);
  }

  /** An empty inode is whole. */
  lemma EmptyTight(disk: Disk, d: Dinode)
    requires SamePointers(NoInode(), d) && d.size == 0
    ensures Whole(disk, d) && Solid(disk, d)
  {
    EndOfNothing();
    hide GetInt, EndBlock;
    assert forall s :: SlotOk(s) ==> Ptr(disk, d, s) == 0;
    forall p: nat ensures FileByte(disk, d, p) == 0 {
      hide Ptr, SlotOf, BlockNr, BlockIx;
      if BlockNr(p) < NR_MAX_BLOCK { assert Ptr(disk, d, SlotOf(BlockNr(p))) == 0; }
    }
  }

  // ---- testfs_create_inode ----

  /** Numbers past the inode table have no slot. */
  lemma TableBound(nr: nat)
    ensures InodeBlock(nr) >= NR_INODE_BLOCKS <==> nr >= NR_INODES
    ensures NR_INODES <= NR_INODE_BITS
  {
    assert Relations(SHAPE);
    Split(INODES_PER_BLOCK, nr, NR_INODE_BLOCKS);
  }

  /** The device after a write outside the data region. */
  lemma MetaSameData(disk: Disk, disk': Disk)
    requires |disk| == |disk'| == DEVICE_BLOCKS
    requires forall b :: INODE_BLOCKS_START <= b < DEVICE_BLOCKS ==> disk'[b] == disk[b]
    ensures SameData(disk, disk')
  {}

  /** A new inode: the lowest free number, the given type, no blocks, size 0. It fails
      only when every slot of the inode table is in use, and then changes nothing. */
  method CreateInode(t: InodeTable, kind: int, ghost torn: set<nat>) returns (ret: int, node: Inode?)
    requires kind == I_FILE || kind == I_DIR
    requires t.table.Keys <= t.sb.live
    requires t.Valid() && Files(t, torn)
    modifies t`table, t`ino, t.sb, t.sb.inodeFreemap.v
    ensures t.Valid() && Files(t, torn) && t.owner == old(t.owner) && t.sb.Available() == old(t.sb.Available())
    ensures SameData(old(t.sb.disk), t.sb.disk)
    ensures ret == 0 || ret == -ENOSPC
    ensures ret == -ENOSPC <==> forall i: nat :: i < NR_INODES ==> i in old(t.sb.live)
    ensures ret == -ENOSPC ==> t.ino == old(t.ino) && t.sb.live == old(t.sb.live) && t.table == old(t.table)
    ensures ret == 0 ==>
              && node != null && fresh(node) && t.Cached(node) && node.dirty && node.count == 1
              && node.nr !in old(t.sb.live) && (forall i: nat :: i < node.nr ==> i in old(t.sb.live))
              && t.sb.live == old(t.sb.live) + {node.nr} && t.table == old(t.table)[node.nr := node]
              && node.d == NoInode().(kind := kind) && t.ino == old(t.ino)[node.nr := node.d]
              && OthersSame(old(t.sb.disk), old(t.ino), t.sb.disk, t.ino, node.nr)
  {
    hide SuperBlock.Valid, BlockView, ByteAt, Accounts, DiskInode, InodeTable.Coherent, DinodeFits, InodeTable.Valid,
         GetInt, FsckBut, Ptr, SlotOf, InodeBlock, SuperBlock.Available, OthersSame, Tight, NoInode;
    ghost var disk, ino, live := t.sb.disk, t.ino, t.sb.live;
    DiskSize(t);
    var nr := t.TakeInodeNr();
    TableBound(NR_INODES);
    DiskSize(t);
    MetaSameData(disk, t.sb.disk);
    FilesSameData(disk, ino, t.owner, live, torn, t.sb.disk);
    node := null;
    if nr < 0 {
      return nr, node;
    }
    TableBound(nr);
    if InodeBlock(nr) >= NR_INODE_BLOCKS {
      t.ReturnInodeNr(nr);
      DiskSize(t);
      MetaSameData(disk, t.sb.disk);
      FilesSameData(disk, ino, t.owner, live, torn, t.sb.disk);
      return -ENOSPC, node;
    }
    node := t.GetInode(nr);
    NoInodeFits(kind);
    t.Store(node, node.d.(kind := kind));
    FsckIsSave(disk, ino, t.owner, -1);
    FilesFrame(disk, ino, t.owner, -1, t.sb.disk, nr, node.d);
    FsckIsSave(t.sb.disk, t.ino, t.owner, -1);
    MaxFileFits();
    EmptySize();
    EmptyTight(t.sb.disk, node.d);
    InodesAdd(disk, ino, live, torn, t.sb.disk, t.ino, nr);
    ret := 0;
  }

  // ---- testfs_remove_inode ----

  /** Returns all blocks of the inode, zeroes its slot and frees its number. The source
      asserts that block_count is 0 when the blocks have been returned; the result tells
      whether the program gets past that, as it does exactly if the file was tight. A
      write that ran out of space may have left another inode, `skip`, naming blocks that
      are free. */
  method RemoveInode(t: InodeTable, node: Inode, ghost skip: int) returns (passed: bool)
    requires t.Cached(node) && node.nr in t.sb.live && 0 < node.count
    requires 0 <= node.d.size && Settled(t.owner) && skip != node.nr
    requires t.Valid() && t.FsckSave(skip)
    modifies t`table, t`ino, t`owner, t.sb, t.sb.blockFreemap.v, t.sb.inodeFreemap.v, node
    ensures t.Valid() && (passed <==> old(Tight(t.sb.disk, node.d)))
    ensures passed ==>
              && t.FsckSave(skip) && Settled(t.owner)
              && t.sb.live == old(t.sb.live) - {node.nr}
              && t.ino == old(t.ino)[node.nr := NoInode()]
              && OthersSame(old(t.sb.disk), old(t.ino), t.sb.disk, t.ino, node.nr)
              && (forall b :: b in t.owner <==> b in old(t.owner) && old(t.owner)[b].inode != node.nr)
              && (forall b :: b in t.owner ==> t.owner[b] == old(t.owner)[b])
              && node.count == old(node.count) - 1 && !node.dirty
              && t.sb.Available() == old(t.sb.Available()) + old(node.d).blockCount
              && t.table == if node.count == 0 then old(t.table) - {node.nr} else old(t.table)
  {
    hide SuperBlock.Valid, BlockView, ByteAt, Accounts, DiskInode, InodeTable.Coherent, DinodeFits, InodeTable.Valid,
         GetInt, FsckBut, Ptr, SlotOf, InodeBlock, SuperBlock.Available, OthersSame, Tight, NoInode, EndBlock, Own;
    ghost var nr, disk0, ino0, owner0 := node.nr, t.sb.disk, t.ino, t.owner;
    BlocksLeft(t);
    CountIsBlocks(t, node);
    FreeBlocks(t, node, skip);
    EmptySize();
    if node.d.blockCount != 0 {
      return false;
    }
    assert Blocks(t.owner, nr) == {};
    BlocksLeft(t);
    ghost var disk1, ino1, owner1 := t.sb.disk, t.ino, t.owner;
    NoneOwned(owner0, owner1, nr);
    KeysWithout(owner0, owner1, nr);
    NoInodeFits(I_NONE);
    t.Store(node, NoInode());
    DiskSize(t);
    t.ReturnInodeNr(node.nr);
    DiskSize(t);
    MetaSameData(disk1, t.sb.disk);
    t.SyncInode(node);
    FilesFrame(disk1, ino1, owner1, skip, t.sb.disk, nr, NoInode());
    OthersSameThen(disk0, ino0, disk1, ino1, t.sb.disk, t.ino, nr);
    t.PutInode(node);
    passed := true;
  }

  lemma SumOfParts(all: set<int>, rest: set<int>, gone: set<int>)
    requires forall b: int :: b in all <==> b in rest || b in gone
    requires forall b: int :: b in rest ==> b !in gone
    ensures |all| == |rest| + |gone|
  {
    forall b: int ensures (b in all <==> b in rest + gone) && b !in rest * gone {}
    assert all == rest + gone && rest * gone == {};
  }

  lemma KeysWithout(owner: Owners, owner': Owners, n: nat)
    requires forall b :: b in owner' <==> b in owner && owner[b].inode != n
    ensures |owner.Keys| == |owner'.Keys| + |Blocks(owner, n)|
  {
    assert forall b :: b in Blocks(owner, n) ==> b !in owner';
    SumOfParts(owner.Keys, owner'.Keys, Blocks(owner, n));
  }

  lemma NoneOwned(owner: Owners, owner': Owners, n: nat)
    requires Blocks(owner', n) == {}
    requires forall b :: b in owner' ==> b in owner && owner'[b] == owner[b]
    requires forall b :: b in owner && owner[b].inode != n ==> b in owner'
    ensures forall b :: b in owner' <==> b in owner && owner[b].inode != n
  {
    forall b | b in owner' ensures owner[b].inode != n {
      assert b !in Blocks(owner', n);
    }
  }
}
