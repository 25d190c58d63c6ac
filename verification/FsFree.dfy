/** fs/read_write.c: freeing the blocks of a file (testfs_free_blocks). */
module FsFree {
  import opened FsLayout
  import opened FsCodec
  import opened FsOwnership
  import opened FsSuper
  import opened FsInode
  import opened FsAllocate
  import opened FsBytes
  import opened FsReadWrite

  /** How far the freeing has come: direct entries, single-indirect entries, the
      single-indirect block, pages, entries of the current page, the double-indirect
      block. */
  datatype Cursor = Cursor(direct: nat, single: nat, singleBlock: bool, pages: nat, entries: nat, doubleBlock: bool)

  predicate Done(s: Slot, c: Cursor) {
    match s
    case Direct(i) => i < c.direct
    case SingleEntry(i) => i < c.single
    case Single => c.singleBlock
    case Page(p) => p < c.pages
    case PageEntry(p, o) => p < c.pages || (p == c.pages && o < c.entries)
    case Double => c.doubleBlock
    case Loose => false
  }

  /** The file system as the freeing found it, and the inode being emptied. */
  datatype Start = Start(disk: Disk, ino: seq<Dinode>, owner: Owners, n: nat, skip: int) {
    ghost predicate Ok() {
      FsckSave(disk, ino, owner, skip) && Settled(owner) && n < |ino| && n != skip
    }

    function D(): Dinode
      requires n < |ino|
    {
      ino[n]
    }
  }

  /** Exactly the blocks of slots that are done have been returned, and are zero. */
  ghost predicate FreedTo(a: Start, disk: Disk, owner: Owners, c: Cursor) {
    && |disk| == |a.disk|
    && (forall b :: b in owner <==> b in a.owner && !(a.owner[b].inode == a.n && Done(a.owner[b].slot, c)))
    && (forall b :: b in owner ==> owner[b] == a.owner[b])
    && (forall x :: DATA_BLOCKS_START <= x < |disk| ==>
          disk[x] == if x in a.owner && x !in owner then ZERO_BLOCK else a.disk[x])
  }

  /** c' has one more slot done. */
  predicate Advances(c: Cursor, c': Cursor, s: Slot) {
    match s
    case Direct(i) => i == c.direct && c' == c.(direct := i + 1)
    case SingleEntry(i) => i == c.single && c' == c.(single := i + 1)
    case Single => c' == c.(singleBlock := true)
    case Page(p) => p == c.pages && c.entries == NR_INDIRECT_BLOCKS && c' == c.(pages := p + 1, entries := 0)
    case PageEntry(p, o) => p == c.pages && o == c.entries && c' == c.(entries := o + 1)
    case Double => c' == c.(doubleBlock := true)
    case Loose => false
  }

  lemma AdvancesDone(c: Cursor, c': Cursor, s: Slot, t: Slot)
    requires Advances(c, c', s) && SlotOk(t) && SlotOk(s)
    ensures Done(t, c') <==> Done(t, c) || t == s
  {}

  /** Returning the block of slot s, if it has one, completes slot s. */
  lemma FreeStep(a: Start, disk: Disk, owner: Owners, c: Cursor, disk': Disk, owner': Owners, c': Cursor, s: Slot,
                 b: int)
    requires a.Ok() && FreedTo(a, disk, owner, c) && SlotOk(s) && Advances(c, c', s) && !Done(s, c)
    requires b == Ptr(a.disk, a.D(), s)
    requires b == 0 ==> disk' == disk && owner' == owner
    requires b != 0 ==> owner' == owner - {b} && |disk'| == |disk|
    requires b != 0 ==>
               forall x :: DATA_BLOCKS_START <= x < |disk| ==> disk'[x] == if x == b then ZERO_BLOCK else disk[x]
    ensures FreedTo(a, disk', owner', c')
    ensures b != 0 ==> b in owner && owner[b].inode == a.n
  {
    hide Ptr, Done, Advances;
    assert Recorded(a.disk, a.D(), a.n, a.owner) && Stored(a.disk, a.D(), a.n, a.owner);
    if b != 0 { assert b in a.owner && a.owner[b] == Owner(a.n, s); }
    forall x | x in a.owner && a.owner[x].inode == a.n
      ensures Done(a.owner[x].slot, c') <==> Done(a.owner[x].slot, c) || x == b
    {
      var t := a.owner[x].slot;
      assert t != Loose;
      assert SlotOk(t) && Ptr(a.disk, a.D(), t) == x;
      AdvancesDone(c, c', s, t);
    }
  }

  /** testfs_free_block_from_inode for the block of the next slot. */
  method FreeSlot(t: InodeTable, node: Inode, b: int, ghost a: Start, ghost s: Slot, ghost c: Cursor, ghost c': Cursor)
    requires t.Cached(node) && node.nr == a.n
    requires a.Ok() && FreedTo(a, t.sb.disk, t.owner, c) && SlotOk(s) && Advances(c, c', s) && !Done(s, c)
    requires b == Ptr(a.disk, a.D(), s)
    requires t.Valid()
    modifies t`ino, t`owner, t.sb, t.sb.blockFreemap.v, node`d, node`dirty
    ensures t.sb.live == old(t.sb.live)
    ensures t.Valid() && t.Cached(node) && |t.sb.disk| == DEVICE_BLOCKS
    ensures FreedTo(a, t.sb.disk, t.owner, c')
    ensures t.ino == old(t.ino)[node.nr := node.d] && SameFile(old(node.d), node.d) && SamePointers(old(node.d), node.d)
  {
    hide Ptr, SuperBlock.Valid, BlockView, Accounts, DiskInode, InodeTable.Coherent, DinodeFits, InodeTable.Valid,
         Done, Advances, FreedTo;
    ghost var disk, owner := t.sb.disk, t.owner;
    if b != 0 { FreedOwns(a, disk, owner, c, s, b); }
    DiskSize(t);
    t.FreeBlockFrom(node, b);
    DiskSize(t);
    FreeStep(a, disk, owner, c, t.sb.disk, t.owner, c', s, b);
  }

  lemma DiskSize(t: InodeTable)
    requires t.Valid()
    ensures |t.sb.disk| == DEVICE_BLOCKS
  {
    hide SuperBlock.Valid;
  }

  lemma FreedOwns(a: Start, disk: Disk, owner: Owners, c: Cursor, s: Slot, b: int)
    requires a.Ok() && FreedTo(a, disk, owner, c) && SlotOk(s) && !Done(s, c) && b == Ptr(a.disk, a.D(), s) && b != 0
    ensures b in owner && owner[b].inode == a.n && owner[b] == a.owner[b]
    ensures DATA_BLOCKS_START <= b < |disk| == DEVICE_BLOCKS && disk[b] == a.disk[b]
  {
    hide Ptr, Done;
    assert Recorded(a.disk, a.D(), a.n, a.owner);
  }

  /** The direct blocks (fs/read_write.c:291-296). */
  method FreeDirect(t: InodeTable, node: Inode, e: nat, ghost a: Start) returns (ghost c: Cursor)
    requires t.Cached(node) && node.nr == a.n && a.Ok() && node.d == a.D()
    requires FreedTo(a, t.sb.disk, t.owner, Cursor(0, 0, false, 0, 0, false))
    requires t.Valid()
    modifies t`ino, t`owner, t.sb, t.sb.blockFreemap.v, node`d, node`dirty
    ensures t.sb.live == old(t.sb.live)
    ensures t.Valid() && t.Cached(node)
    ensures c == Cursor(if e < NR_DIRECT_BLOCKS then e else NR_DIRECT_BLOCKS, 0, false, 0, 0, false)
    ensures FreedTo(a, t.sb.disk, t.owner, c)
    ensures t.ino == old(t.ino)[node.nr := node.d] && SameFile(old(node.d), node.d)
    ensures node.d.indirect == old(node.d).indirect && node.d.dindirect == old(node.d).dindirect
    ensures forall i ::
              0 <= i < NR_DIRECT_BLOCKS ==> node.d.direct[i] == if i < c.direct then 0 else old(node.d).direct[i]
  {
    hide SuperBlock.Valid, BlockView, Accounts, DiskInode, InodeTable.Coherent, DinodeFits, InodeTable.Valid, Done,
         FreedTo, GetInt, Start.Ok;
    c := Cursor(0, 0, false, 0, 0, false);
    var i := 0;
    while i < e && i < NR_DIRECT_BLOCKS
      invariant 0 <= i <= NR_DIRECT_BLOCKS && i <= e && c == Cursor(i, 0, false, 0, 0, false)
      invariant t.sb.live == old(t.sb.live)
      invariant t.Valid() && t.Cached(node) && FreedTo(a, t.sb.disk, t.owner, c)
      invariant t.ino == old(t.ino)[node.nr := node.d] && SameFile(old(node.d), node.d)
      invariant node.d.indirect == old(node.d).indirect && node.d.dindirect == old(node.d).dindirect
      invariant forall k :: 0 <= k < NR_DIRECT_BLOCKS ==> node.d.direct[k] == if k < i then 0 else old(node.d).direct[k]
    {
      ghost var c' := c.(direct := i + 1);
      NotDone(Direct(i), c);
      FreeSlot(t, node, node.d.direct[i], a, Direct(i), c, c');
      if node.d.direct[i] != 0 {
        PointerFits(t, node, Direct(i), 0);
        t.Store(node, node.d.(direct := node.d.direct[i := 0]));
      }
      c := c';
      i := i + 1;
    }
  }

  lemma NotDone(s: Slot, c: Cursor)
    ensures s.Direct? && s.i == c.direct ==> !Done(s, c)
    ensures s.SingleEntry? && s.i == c.single ==> !Done(s, c)
    ensures s == Single && !c.singleBlock ==> !Done(s, c)
    ensures s.Page? && s.p == c.pages ==> !Done(s, c)
    ensures s.PageEntry? && s.p == c.pages && s.o == c.entries ==> !Done(s, c)
    ensures s == Double && !c.doubleBlock ==> !Done(s, c)
  {}

  /** The single-indirect block and its entries (fs/read_write.c:300-309). Entries at
      and past the end of the file are not returned. */
  method FreeSingle(t: InodeTable, node: Inode, e: int, ghost a: Start, ghost c0: Cursor) returns (ghost c: Cursor)
    requires t.Cached(node) && node.nr == a.n && a.Ok() && node.d.indirect == a.D().indirect
    requires c0.single == 0 && !c0.singleBlock && c0.pages == c0.entries == 0 && !c0.doubleBlock
    requires FreedTo(a, t.sb.disk, t.owner, c0)
    requires t.Valid()
    modifies t`ino, t`owner, t.sb, t.sb.blockFreemap.v, node`d, node`dirty
    ensures t.sb.live == old(t.sb.live)
    ensures t.Valid() && t.Cached(node)
    ensures c == c0 || (c.singleBlock && c == c0.(single := c.single, singleBlock := true))
    ensures a.D().indirect != 0 ==>
              && c.singleBlock
              && c.single == if e < 0 then 0 else if e < NR_INDIRECT_BLOCKS then e else NR_INDIRECT_BLOCKS
    ensures a.D().indirect == 0 ==> c == c0
    ensures FreedTo(a, t.sb.disk, t.owner, c)
    ensures t.ino == old(t.ino)[node.nr := node.d] && SameFile(old(node.d), node.d)
    ensures node.d.indirect == 0 && node.d.dindirect == old(node.d).dindirect && node.d.direct == old(node.d).direct
  {
    hide SuperBlock.Valid, BlockView, Accounts, DiskInode, InodeTable.Coherent, DinodeFits, InodeTable.Valid, Done,
         FreedTo, GetInt, Start.Ok, FsckBut;
    c := c0;
    IndexInRange(a, Single);
    if node.d.indirect > 0 {
      NotDone(Single, c);
      FreedOwns(a, t.sb.disk, t.owner, c, Single, node.d.indirect);
      var block := t.sb.disk[node.d.indirect];
      var i := 0;
      while i < e && i < NR_INDIRECT_BLOCKS
        invariant 0 <= i <= NR_INDIRECT_BLOCKS && (i <= e || i == 0) && c == c0.(single := i)
        invariant t.sb.live == old(t.sb.live)
        invariant t.Valid() && t.Cached(node) && FreedTo(a, t.sb.disk, t.owner, c)
        invariant && t.ino == old(t.ino)[node.nr := node.d] && SameFile(old(node.d), node.d)
                  && SamePointers(old(node.d), node.d)
      {
        ghost var c' := c.(single := i + 1);
        NotDone(SingleEntry(i), c);
        FreeSlot(t, node, GetInt(block, i), a, SingleEntry(i), c, c');
        c := c';
        i := i + 1;
      }
      ghost var c' := c.(singleBlock := true);
      NotDone(Single, c);
      FreeSlot(t, node, node.d.indirect, a, Single, c, c');
      PointerFits(t, node, Single, 0);
      t.Store(node, node.d.(indirect := 0));
      c := c';
    }
  }

  /** Index blocks are zero or on the device. */
  lemma IndexInRange(a: Start, s: Slot)
    requires a.Ok() && SlotOk(s)
    ensures |a.D().direct| == NR_DIRECT_BLOCKS && |a.disk| == DEVICE_BLOCKS
    ensures 0 <= Ptr(a.disk, a.D(), s) < DEVICE_BLOCKS
    ensures a.D().indirect == Ptr(a.disk, a.D(), Single) && a.D().dindirect == Ptr(a.disk, a.D(), Double)
  {
    assert Recorded(a.disk, a.D(), a.n, a.owner);
  }

  /** One page of the double-indirect block and its entries (fs/read_write.c:319-332). */
  method FreePage(t: InodeTable, node: Inode, page: int, ghost a: Start, ghost c0: Cursor) returns (ghost c: Cursor)
    requires t.Cached(node) && node.nr == a.n && a.Ok()
    requires c0.pages < NR_INDIRECT_BLOCKS && c0.entries == 0 && page == Ptr(a.disk, a.D(), Page(c0.pages)) && page != 0
    requires FreedTo(a, t.sb.disk, t.owner, c0)
    requires t.Valid()
    modifies t`ino, t`owner, t.sb, t.sb.blockFreemap.v, node`d, node`dirty
    ensures t.sb.live == old(t.sb.live)
    ensures t.Valid() && t.Cached(node)
    ensures c == c0.(pages := c0.pages + 1) && FreedTo(a, t.sb.disk, t.owner, c)
    ensures t.ino == old(t.ino)[node.nr := node.d] && SameFile(old(node.d), node.d) && SamePointers(old(node.d), node.d)
  {
    hide SuperBlock.Valid, BlockView, Accounts, DiskInode, InodeTable.Coherent, DinodeFits, InodeTable.Valid, Done,
         FreedTo, GetInt, Start.Ok, FsckBut;
    ghost var p := c0.pages;
    c := c0;
    IndexInRange(a, Page(p));
    NotDone(Page(p), c);
    FreedOwns(a, t.sb.disk, t.owner, c, Page(p), page);
    var dp2 := t.sb.disk[page];
    for k := 0 to NR_INDIRECT_BLOCKS
      invariant c == c0.(entries := k)
      invariant t.sb.live == old(t.sb.live)
      invariant t.Valid() && t.Cached(node) && FreedTo(a, t.sb.disk, t.owner, c)
      invariant && t.ino == old(t.ino)[node.nr := node.d] && SameFile(old(node.d), node.d)
                && SamePointers(old(node.d), node.d)
    {
      ghost var c' := c.(entries := k + 1);
      NotDone(PageEntry(p, k), c);
      FreeSlot(t, node, GetInt(dp2, k), a, PageEntry(p, k), c, c');
      c := c';
    }
    ghost var c' := c.(pages := p + 1, entries := 0);
    NotDone(Page(p), c);
    FreeSlot(t, node, page, a, Page(p), c, c');
    c := c';
  }

  /** A page that is not there has no entries. */
  lemma SkipPage(a: Start, disk: Disk, owner: Owners, c: Cursor)
    requires a.Ok() && FreedTo(a, disk, owner, c) && c.entries == 0 && c.pages < NR_INDIRECT_BLOCKS
    requires Ptr(a.disk, a.D(), Page(c.pages)) == 0
    ensures FreedTo(a, disk, owner, c.(pages := c.pages + 1))
  {
    hide GetInt;
    assert Stored(a.disk, a.D(), a.n, a.owner);
    forall b | b in a.owner && a.owner[b].inode == a.n
      ensures Done(a.owner[b].slot, c) <==> Done(a.owner[b].slot, c.(pages := c.pages + 1))
    {
      var s := a.owner[b].slot;
      assert SlotOk(s) && Ptr(a.disk, a.D(), s) == b;
    }
  }

  /** The double-indirect block, its pages and their entries (fs/read_write.c:315-336). */
  method FreeDouble(t: InodeTable, node: Inode, ghost a: Start, ghost c0: Cursor) returns (ghost c: Cursor)
    requires t.Cached(node) && node.nr == a.n && a.Ok() && node.d.dindirect == a.D().dindirect
    requires c0.pages == c0.entries == 0 && !c0.doubleBlock
    requires FreedTo(a, t.sb.disk, t.owner, c0)
    requires t.Valid()
    modifies t`ino, t`owner, t.sb, t.sb.blockFreemap.v, node`d, node`dirty
    ensures t.sb.live == old(t.sb.live)
    ensures t.Valid() && t.Cached(node)
    ensures c == if a.D().dindirect == 0 then c0 else c0.(pages := NR_INDIRECT_BLOCKS, doubleBlock := true)
    ensures FreedTo(a, t.sb.disk, t.owner, c)
    ensures t.ino == old(t.ino)[node.nr := node.d] && SameFile(old(node.d), node.d)
    ensures node.d.dindirect == 0 && node.d.indirect == old(node.d).indirect && node.d.direct == old(node.d).direct
  {
    hide SuperBlock.Valid, BlockView, Accounts, DiskInode, InodeTable.Coherent, DinodeFits, InodeTable.Valid, Done,
         FreedTo, GetInt, Start.Ok, FsckBut;
    c := c0;
    IndexInRange(a, Double);
    if node.d.dindirect > 0 {
      NotDone(Double, c);
      FreedOwns(a, t.sb.disk, t.owner, c, Double, node.d.dindirect);
      var dp1 := t.sb.disk[node.d.dindirect];
      for j := 0 to NR_INDIRECT_BLOCKS
        invariant c == c0.(pages := j)
        invariant t.sb.live == old(t.sb.live)
        invariant t.Valid() && t.Cached(node) && FreedTo(a, t.sb.disk, t.owner, c)
        invariant && t.ino == old(t.ino)[node.nr := node.d] && SameFile(old(node.d), node.d)
                  && SamePointers(old(node.d), node.d)
      {
        if GetInt(dp1, j) == 0 {
          SkipPage(a, t.sb.disk, t.owner, c);
          c := c.(pages := j + 1);
        } else {
          c := FreePage(t, node, GetInt(dp1, j), a, c);
        }
      }
      ghost var c' := c.(doubleBlock := true);
      NotDone(Double, c);
      FreeSlot(t, node, node.d.dindirect, a, Double, c, c');
      PointerFits(t, node, Double, 0);
      t.Store(node, node.d.(dindirect := 0));
      c := c';
    }
  }

  // ---- what has been freed ----

  /** Where the freeing ends for a file whose last block is e - 1. */
  predicate EndsAt(d: Dinode, e: nat, c: Cursor) {
    && c.entries == 0
    && c.direct == (if e < NR_DIRECT_BLOCKS then e else NR_DIRECT_BLOCKS)
    && c.singleBlock == (d.indirect != 0)
    && (d.indirect != 0 ==> c.single == if e < NR_DIRECT_BLOCKS then 0
                                        else if e - NR_DIRECT_BLOCKS < NR_INDIRECT_BLOCKS then e - NR_DIRECT_BLOCKS
                                        else NR_INDIRECT_BLOCKS)
    && (if e >= NR_DIRECT_BLOCKS + NR_INDIRECT_BLOCKS && d.dindirect != 0
        then c.pages == NR_INDIRECT_BLOCKS && c.doubleBlock else c.pages == 0 && !c.doubleBlock)
  }

  /** No single-indirect entry maps a block at or past the end of the file. */
  ghost predicate NoSingleBeyond(disk: Disk, d: Dinode) {
    && |d.direct| == NR_DIRECT_BLOCKS && 0 <= d.size
    && forall i: nat ::
         i < NR_INDIRECT_BLOCKS && Ptr(disk, d, SingleEntry(i)) != 0 ==> NR_DIRECT_BLOCKS + i < EndBlock(d.size)
  }

  lemma SlotOfLow(s: Slot)
    requires SlotOk(s) && (s.Direct? || s.SingleEntry?)
    ensures 0 <= LogicalOf(s) < NR_DIRECT_BLOCKS + NR_INDIRECT_BLOCKS < NR_MAX_BLOCK && SlotOf(LogicalOf(s)) == s
  {
    MaxFileFits();
  }

  /** All blocks of the inode are returned exactly if the file was tight. */
  lemma AllFreedIffTight(a: Start, disk: Disk, owner: Owners, c: Cursor)
    requires a.Ok() && FreedTo(a, disk, owner, c) && 0 <= a.D().size && EndsAt(a.D(), EndBlock(a.D().size), c)
    ensures Tight(a.disk, a.D()) <==> Blocks(owner, a.n) == {}
  {
    var d, e := a.D(), EndBlock(a.D().size);
    assert Recorded(a.disk, d, a.n, a.owner) && Stored(a.disk, d, a.n, a.owner);
    IndexInRange(a, Double);
    hide EndBlock, GetInt, SlotOf;
    if Tight(a.disk, d) {
      forall b | b in a.owner && a.owner[b].inode == a.n ensures Done(a.owner[b].slot, c) {
        var s := a.owner[b].slot;
        assert SlotOk(s) && Ptr(a.disk, d, s) == b;
        if s.Direct? || s.SingleEntry? { SlotOfLow(s); }
      }
      forall b | b in owner ensures owner[b].inode != a.n { assert owner[b] == a.owner[b]; }
    } else if d.dindirect != 0 && e < NR_DIRECT_BLOCKS + NR_INDIRECT_BLOCKS {
      assert d.dindirect in Blocks(owner, a.n);
    } else {
      var k: nat :|
        && k < NR_DIRECT_BLOCKS + NR_INDIRECT_BLOCKS && k < NR_MAX_BLOCK
        && Ptr(a.disk, d, SlotOf(k)) != 0 && k >= e;
      assert LogicalOf(SlotOf(k)) == k;
      assert Ptr(a.disk, d, SlotOf(k)) in Blocks(owner, a.n);
    }
  }

  /** The other inodes keep their block numbers, their blocks and their content. */
  lemma FreedOthers(a: Start, disk: Disk, owner: Owners, c: Cursor, ino': seq<Dinode>)
    requires a.Ok() && FreedTo(a, disk, owner, c) && Sized(ino') && |ino'| == |a.ino|
    requires forall m :: 0 <= m < |ino'| && m != a.n ==> ino'[m] == a.ino[m]
    ensures OthersSame(a.disk, a.ino, disk, ino', a.n)
    ensures forall m: nat :: m < |ino'| && m != a.n ==> Own(disk, ino'[m], m, owner)
    ensures forall m: nat ::
              m < |ino'| && m != a.n && m != a.skip ==>
                Recorded(disk, ino'[m], m, owner) && Stored(disk, ino'[m], m, owner)
  {
    hide GetInt, SlotOf, Done;
    forall m: nat | m < |ino'| && m != a.n
      ensures Own(disk, ino'[m], m, owner)
      ensures m != a.skip ==> Recorded(disk, ino'[m], m, owner) && Stored(disk, ino'[m], m, owner)
      ensures forall l :: 0 <= l < NR_MAX_BLOCK ==> BlockView(disk, ino'[m], l) == BlockView(a.disk, a.ino[m], l)
      ensures forall s :: SlotOk(s) ==> Ptr(disk, ino'[m], s) == Ptr(a.disk, a.ino[m], s)
    {
      var d := a.ino[m];
      assert Own(a.disk, d, m, a.owner);
      PtrOwnFrame(a.disk, disk, d, m, a.owner);
      hide Ptr;
      if m != a.skip {
        assert Recorded(a.disk, d, m, a.owner) && Stored(a.disk, d, m, a.owner);
      }
    }
  }

  /** The emptied inode stores nothing but direct blocks past the end and, if the file
      ended before it, the double-indirect tree. */
  lemma FreedPtr(a: Start, disk: Disk, owner: Owners, c: Cursor, d': Dinode, s: Slot)
    requires a.Ok() && FreedTo(a, disk, owner, c) && 0 <= a.D().size && EndsAt(a.D(), EndBlock(a.D().size), c)
    requires |d'.direct| == NR_DIRECT_BLOCKS && SlotOk(s)
    requires forall i :: 0 <= i < NR_DIRECT_BLOCKS ==> d'.direct[i] == if i < c.direct then 0 else a.D().direct[i]
    requires d'.indirect == 0 && d'.dindirect == if c.doubleBlock then 0 else a.D().dindirect
    ensures Ptr(disk, d', s) == if s.SingleEntry? || Done(s, c) then 0 else Ptr(a.disk, a.D(), s)
    decreases s.PageEntry?
  {
    hide GetInt, EndBlock;
    var d := a.D();
    assert Recorded(a.disk, d, a.n, a.owner);
    IndexInRange(a, Double);
    match s
    case Page(p) =>
      if !c.doubleBlock && d.dindirect != 0 { FreedOwns(a, disk, owner, c, Double, d.dindirect); }
    case PageEntry(p, o) =>
      var y := Ptr(a.disk, d, Page(p));
      FreedPtr(a, disk, owner, c, d', Page(p));
      if !c.doubleBlock && y != 0 { FreedOwns(a, disk, owner, c, Page(p), y); }
    case Single =>
    case _ =>
  }

  /** After the freeing the ownership invariant holds exactly if no single-indirect
      entry lay past the end: those blocks stay in use with nothing naming them. */
  lemma FreedFsck(a: Start, disk: Disk, owner: Owners, c: Cursor, ino': seq<Dinode>)
    requires a.Ok() && FreedTo(a, disk, owner, c) && 0 <= a.D().size && EndsAt(a.D(), EndBlock(a.D().size), c)
    requires Sized(ino') && |ino'| == |a.ino| && Counted(ino', owner)
    requires forall m :: 0 <= m < |ino'| && m != a.n ==> ino'[m] == a.ino[m]
    requires forall i ::
               0 <= i < NR_DIRECT_BLOCKS ==> ino'[a.n].direct[i] == if i < c.direct then 0 else a.D().direct[i]
    requires ino'[a.n].indirect == 0 && ino'[a.n].dindirect == if c.doubleBlock then 0 else a.D().dindirect
    ensures FsckSave(disk, ino', owner, a.skip) <==> NoSingleBeyond(a.disk, a.D())
    ensures Settled(owner)
  {
    var n, d' := a.n, ino'[a.n];
    FreedOthers(a, disk, owner, c, ino');
    assert Recorded(a.disk, a.D(), n, a.owner) && Stored(a.disk, a.D(), n, a.owner);
    forall s | SlotOk(s) ensures Ptr(disk, d', s) == if s.SingleEntry? || Done(s, c) then 0 else Ptr(a.disk, a.D(), s) {
      FreedPtr(a, disk, owner, c, d', s);
    }
    IndexInRange(a, Single);
    if NoSingleBeyond(a.disk, a.D()) {
      forall b | b in owner && owner[b].inode == n ensures !owner[b].slot.SingleEntry? {
        SingleDone(a, c, b);
      }
      hide Ptr, Done, EndBlock;
      assert Recorded(disk, d', n, owner);
      assert Stored(disk, d', n, owner);
      assert Own(disk, d', n, owner);
    } else {
      hide GetInt, EndBlock;
      var i: nat :|
        && i < NR_INDIRECT_BLOCKS && Ptr(a.disk, a.D(), SingleEntry(i)) != 0
        && NR_DIRECT_BLOCKS + i >= EndBlock(a.D().size);
      var b := Ptr(a.disk, a.D(), SingleEntry(i));
      assert b in owner && owner[b] == Owner(n, SingleEntry(i));
      assert !Stored(disk, d', n, owner);
    }
  }

  lemma SingleDone(a: Start, c: Cursor, b: int)
    requires a.Ok() && 0 <= a.D().size && EndsAt(a.D(), EndBlock(a.D().size), c) && NoSingleBeyond(a.disk, a.D())
    requires b in a.owner && a.owner[b].inode == a.n
    ensures a.owner[b].slot.SingleEntry? ==> Done(a.owner[b].slot, c)
  {
    hide GetInt, EndBlock;
    assert Stored(a.disk, a.D(), a.n, a.owner);
    if a.owner[b].slot.SingleEntry? {
      assert Ptr(a.disk, a.D(), a.owner[b].slot) == b;
      assert a.D().indirect != 0;
    }
  }

  lemma FreedNothingLeft(a: Start, c: Cursor, d': Dinode)
    requires a.Ok() && 0 <= a.D().size && EndsAt(a.D(), EndBlock(a.D().size), c) && Tight(a.disk, a.D())
    requires |d'.direct| == NR_DIRECT_BLOCKS
    requires forall i :: 0 <= i < NR_DIRECT_BLOCKS ==> d'.direct[i] == if i < c.direct then 0 else a.D().direct[i]
    requires d'.indirect == 0 && d'.dindirect == if c.doubleBlock then 0 else a.D().dindirect
    requires d'.size == 0 && d'.blockCount == 0
    ensures d' == NoInode().(kind := d'.kind)
    ensures NoSingleBeyond(a.disk, a.D())
  {
    hide GetInt, EndBlock, SlotOf;
    forall i: nat | i < NR_DIRECT_BLOCKS ensures d'.direct[i] == 0 {
      SlotOfLow(Direct(i));
      assert Ptr(a.disk, a.D(), SlotOf(i)) == a.D().direct[i];
    }
    assert d'.direct == NoInode().direct;
    forall i: nat | i < NR_INDIRECT_BLOCKS && Ptr(a.disk, a.D(), SingleEntry(i)) != 0
      ensures NR_DIRECT_BLOCKS + i < EndBlock(a.D().size)
    {
      SlotOfLow(SingleEntry(i));
      assert SlotOf(NR_DIRECT_BLOCKS + i) == SingleEntry(i);
    }
  }

  lemma CountIsBlocks(t: InodeTable, node: Inode)
    requires t.Cached(node)
    requires t.Valid()
    ensures Sized(t.ino) && Counted(t.ino, t.owner) && node.d.blockCount == |Blocks(t.owner, node.nr)|
  {
    hide SuperBlock.Valid, InodeTable.Coherent;
  }

  /** Returns the blocks of the inode and sets its size to 0; `skip` is an inode whose
      own block numbers need not be in order, or -1. Every one is returned
      exactly if the file was tight; otherwise block_count stays positive. No other
      file changes. */
  method FreeBlocks(t: InodeTable, node: Inode, ghost skip: int)
    requires t.Cached(node) && 0 <= node.d.size && Settled(t.owner) && skip != node.nr
    requires t.Valid() && t.FsckSave(skip)
    modifies t`ino, t`owner, t.sb, t.sb.blockFreemap.v, node`d, node`dirty
    ensures t.sb.live == old(t.sb.live)
    ensures t.Valid() && t.Cached(node) && node.dirty
    ensures node.d.size == 0 && node.d.kind == old(node.d).kind
    ensures node.d.blockCount == |Blocks(t.owner, node.nr)|
    ensures node.d.blockCount == 0 <==> old(Tight(t.sb.disk, node.d))
    ensures t.FsckSave(skip) <==> old(NoSingleBeyond(t.sb.disk, node.d))
    ensures old(Tight(t.sb.disk, node.d)) ==> t.FsckSave(skip) && node.d == NoInode().(kind := old(node.d).kind)
    ensures forall b :: b in t.owner ==> b in old(t.owner) && t.owner[b] == old(t.owner)[b]
    ensures forall b :: b in old(t.owner) && old(t.owner)[b].inode != node.nr ==> b in t.owner
    ensures Settled(t.owner)
    ensures t.ino == old(t.ino)[node.nr := node.d]
    ensures OthersSame(old(t.sb.disk), old(t.ino), t.sb.disk, t.ino, node.nr)
  {
    hide SuperBlock.Valid, BlockView, Accounts, DiskInode, InodeTable.Coherent, DinodeFits, InodeTable.Valid, Done,
         FreedTo, GetInt, Start.Ok, FsckBut, EndBlock, Tight, NoSingleBeyond, OthersSame;
    ghost var a := Start(t.sb.disk, t.ino, t.owner, node.nr, skip);
    var e := EndBlock(node.d.size);
    StartOk(a);
    ghost var c := FreeDirect(t, node, e, a);
    c := FreeSingle(t, node, e - NR_DIRECT_BLOCKS, a, c);
    if e - NR_DIRECT_BLOCKS - NR_INDIRECT_BLOCKS >= 0 {
      c := FreeDouble(t, node, a, c);
    }
    SizeFits(t, node, 0);
    t.Store(node, node.d.(size := 0));
    IndexInRange(a, Single);
    CountIsBlocks(t, node);
    AllFreedIffTight(a, t.sb.disk, t.owner, c);
    FreedFsck(a, t.sb.disk, t.owner, c, t.ino);
    FreedOthers(a, t.sb.disk, t.owner, c, t.ino);
    FreedOwner(a, t.sb.disk, t.owner, c);
    if Tight(a.disk, a.D()) { FreedNothingLeft(a, c, node.d); }
  }

  lemma FreedOwner(a: Start, disk: Disk, owner: Owners, c: Cursor)
    requires FreedTo(a, disk, owner, c)
    ensures forall b :: b in owner ==> b in a.owner && owner[b] == a.owner[b]
    ensures forall b :: b in a.owner && a.owner[b].inode != a.n ==> b in owner
  {
    hide Done;
  }

  lemma StartOk(a: Start)
    requires FsckSave(a.disk, a.ino, a.owner, a.skip) && Settled(a.owner) && a.n < |a.ino| && a.n != a.skip
    ensures a.Ok() && FreedTo(a, a.disk, a.owner, Cursor(0, 0, false, 0, 0, false))
  {
    hide GetInt, Ptr;
  }
}
