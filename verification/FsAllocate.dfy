/** fs/read_write.c: looking up and extending the three-level block map. */
module FsAllocate {
  import opened FsLayout
  import opened FsCodec
  import opened FsBitmap
  import opened FsOwnership
  import opened FsSuper
  import opened FsInode

  const EFBIG: int := 27

  // ---- testfs_read_block ----

  /** The content of logical block l and its physical number, 0 if there is none.
      The source's guard lets l == NR_MAX_BLOCK through to an entry outside the
      index block; no caller passes that value. */
  method ReadBlock(t: InodeTable, node: Inode, l: nat) returns (phy: int, block: Block)
    requires t.Cached(node) && l != NR_MAX_BLOCK
    requires t.Valid() && t.Fsck()
    ensures l > NR_MAX_BLOCK ==> phy == EFBIG
    ensures l < NR_MAX_BLOCK ==> phy == Ptr(t.sb.disk, node.d, SlotOf(l)) && block == BlockView(t.sb.disk, node.d, l)
  {
    hide GetInt, Counted, DinodeFits, SuperBlock.Valid;
    block := ZERO_BLOCK;
    if l > NR_MAX_BLOCK {
      return EFBIG, block;
    }
    var disk, d := t.sb.disk, node.d;
    assert Recorded(disk, d, node.nr, t.owner);
    phy := 0;
    if l < NR_DIRECT_BLOCKS {
      phy := d.direct[l];
    } else {
      var k := l - NR_DIRECT_BLOCKS;
      assert Ptr(disk, d, Single) == d.indirect && Ptr(disk, d, Double) == d.dindirect;
      if k >= NR_INDIRECT_BLOCKS {
        k := k - NR_INDIRECT_BLOCKS;
        assert SlotOf(l) == PageEntry(k / NR_INDIRECT_BLOCKS, k % NR_INDIRECT_BLOCKS);
        assert SlotOk(SlotOf(l));
        var offset := k % NR_INDIRECT_BLOCKS;
        var pg := k / NR_INDIRECT_BLOCKS;
        if d.dindirect > 0 {
          block := disk[d.dindirect];
          phy := GetInt(block, pg);
          assert phy == Ptr(disk, d, Page(pg));
        } else {
          return phy, ZERO_BLOCK;
        }
        if phy > 0 {
          block := disk[phy];
          phy := GetInt(block, offset);
        } else {
          return phy, ZERO_BLOCK;
        }
        if phy > 0 {
          block := disk[phy];
        } else {
          block := ZERO_BLOCK;
        }
        return phy, block;
      } else if d.indirect > 0 {
        block := disk[d.indirect];
        phy := GetInt(block, k);
      }
    }
    assert phy == Ptr(disk, d, SlotOf(l));
    if phy > 0 {
      block := disk[phy];
    } else {
      block := ZERO_BLOCK;
    }
  }

  // ---- testfs_allocate_block ----

  /** Blocks that mapping logical block l takes: the block itself and the index
      blocks on the way to it. */
  ghost function Cost(disk: Disk, d: Dinode, l: nat): nat
    requires |d.direct| == NR_DIRECT_BLOCKS && l < NR_MAX_BLOCK
  {
    var s := SlotOf(l);
    if Ptr(disk, d, s) != 0 then 0
    else match s
      case Direct(_) => 1
      case SingleEntry(_) => if d.indirect == 0 then 2 else 1
      case PageEntry(p, _) => DoubleCost(disk, d, p)
      case _ => 0
  }

  ghost function DoubleCost(disk: Disk, d: Dinode, p: nat): nat
    requires |d.direct| == NR_DIRECT_BLOCKS && p < NR_INDIRECT_BLOCKS
  {
    1 + (if Ptr(disk, d, Page(p)) == 0 then 1 else 0) + (if d.dindirect == 0 then 1 else 0)
  }

  /** The failure that leaves i_indirect naming a block that is free again: the
      single-indirect block takes the last free block and the data block fails. */
  ghost predicate Strands(disk: Disk, d: Dinode, l: nat, available: int)
    requires |d.direct| == NR_DIRECT_BLOCKS && l < NR_MAX_BLOCK
  {
    Ptr(disk, d, SlotOf(l)) == 0 && SlotOf(l).SingleEntry? && d.indirect == 0 && available == 1
  }

  /** Slot s holds the number of the block of data slot t, or of an index block on the way
      to it. */
  predicate Leads(s: Slot, t: Slot) {
    s == t || (t.SingleEntry? && s == Single) || (t.PageEntry? && (s == Double || s == Page(t.p)))
  }

  /** The inode now maps data slot t; no other slot has come into use or gone out of it. */
  ghost predicate Mapped(disk: Disk, d: Dinode, disk': Disk, d': Dinode, t: Slot) {
    && |d.direct| == |d'.direct| == NR_DIRECT_BLOCKS
    && forall s :: SlotOk(s) ==> (Ptr(disk', d', s) != 0 <==> Ptr(disk, d, s) != 0 || Leads(s, t))
  }

  /** Exactly one slot of the inode has come into use. */
  ghost predicate SlotUsed(disk: Disk, d: Dinode, disk': Disk, d': Dinode, t: Slot) {
    && |d.direct| == |d'.direct| == NR_DIRECT_BLOCKS
    && forall s :: SlotOk(s) ==> (Ptr(disk', d', s) != 0 <==> Ptr(disk, d, s) != 0 || s == t)
  }

  lemma UsedThen(disk: Disk, d: Dinode, disk1: Disk, d1: Dinode, disk2: Disk, d2: Dinode, s: Slot, t: Slot)
    requires SlotUsed(disk, d, disk1, d1, s) && SlotUsed(disk1, d1, disk2, d2, t)
    ensures forall x :: SlotOk(x) ==> (Ptr(disk2, d2, x) != 0 <==> Ptr(disk, d, x) != 0 || x == s || x == t)
  {
    hide Ptr;
  }

  lemma DataMapSame(disk: Disk, ino: seq<Dinode>, owner: Owners, n: nat, s: Slot)
    requires Fsck(disk, ino, owner) && n < |ino| && SlotOk(s)
    ensures DataMap(disk, ino, disk, ino, n, s, Ptr(disk, ino[n], s))
  {}

  lemma AvailableIsNat(t: InodeTable)
    requires t.Valid()
    ensures 0 <= t.sb.Available()
  {
    hide SuperBlock.Valid;
    t.sb.AvailableIsNat();
  }

  /** Every block is in use or left. */
  lemma BlocksLeft(t: InodeTable)
    requires t.Valid()
    ensures t.sb.Available() + |t.owner.Keys| == t.sb.Capacity()
  {
    hide SuperBlock.Valid;
    t.sb.AvailableIs();
  }

  /** testfs_alloc_block_for_inode, as the ownership invariant sees it. */
  method Take(t: InodeTable, node: Inode) returns (ret: int)
    requires t.Cached(node)
    requires t.Valid() && t.Fsck()
    modifies t`ino, t`owner, t.sb, t.sb.blockFreemap.v, node`d, node`dirty
    ensures t.sb.live == old(t.sb.live)
    ensures t.Valid() && t.Fsck() && t.Cached(node)
    ensures ret < 0 <==> old(t.sb.Available()) <= 0
    ensures ret < 0 ==> ret == -ENOSPC && t.sb.disk == old(t.sb.disk) && t.ino == old(t.ino) && t.owner == old(t.owner)
    ensures ret < 0 ==>
              node.d == old(node.d) && node.dirty == old(node.dirty) && t.sb.Available() == old(t.sb.Available())
    ensures ret >= 0 ==>
              && DATA_BLOCKS_START <= ret < DEVICE_BLOCKS && ret !in old(t.owner)
              && t.owner == old(t.owner)[ret := Owner(node.nr, Loose)]
              && node.d == old(node.d).(blockCount := old(node.d).blockCount + 1) && node.dirty
              && t.ino == old(t.ino)[node.nr := node.d]
              && t.sb.disk[ret] == ZERO_BLOCK && t.sb.Available() == old(t.sb.Available()) - 1
              && SameData(old(t.sb.disk), t.sb.disk)
    ensures forall m, s ::
              0 <= m < |t.ino| && SlotOk(s) ==> Ptr(t.sb.disk, t.ino[m], s) == Ptr(old(t.sb.disk), old(t.ino)[m], s)
    ensures DataMap(old(t.sb.disk), old(t.ino), t.sb.disk, t.ino, node.nr, Loose, 0)
  {
    hide Ptr, SuperBlock.Valid, BlockView, Accounts, DiskInode, InodeTable.Coherent, DinodeFits;
    ghost var disk, ino, owner := t.sb.disk, t.ino, t.owner;
    ret := t.AllocBlockFor(node);
    if ret >= 0 {
      TakeKeepsFsck(disk, ino, owner, t.sb.disk, node.d, node.nr, ret);
      UnmovedDataMap(disk, ino, t.sb.disk, t.ino, owner, node.nr);
    }
  }

  /** A block number fits an s32 field of the inode. */
  lemma PointerFits(t: InodeTable, node: Inode, s: Slot, b: int)
    requires t.Valid() && t.Cached(node) && 0 <= b < DEVICE_BLOCKS
    requires SlotOk(s) && (s.Direct? || s.Single? || s.Double?)
    ensures DinodeFits(WithField(node.d, s, b))
  {
    DeviceIs32Bit();
    hide SuperBlock.Valid, Counted, InodeTable.Coherent;
  }

  /** Takes a block and stores its number in a field of the inode: the direct case
      (fs/read_write.c:131-135), and the index blocks of the others (154-158, 208-212). */
  method AllocateField(t: InodeTable, node: Inode, s: Slot) returns (ret: int)
    requires t.Cached(node) && SlotOk(s) && (s.Direct? || s.Single? || s.Double?)
    requires Ptr(t.sb.disk, node.d, s) == 0
    requires t.Valid() && t.Fsck()
    modifies t`ino, t`owner, t.sb, t.sb.blockFreemap.v, node`d, node`dirty
    ensures NoNewLoose(old(t.owner), t.owner)
    ensures t.sb.live == old(t.sb.live)
    ensures t.Valid() && t.Fsck() && t.Cached(node)
    ensures ret < 0 <==> old(t.sb.Available()) <= 0
    ensures ret < 0 ==> ret == -ENOSPC && t.sb.disk == old(t.sb.disk) && t.owner == old(t.owner)
    ensures ret < 0 ==>
              node.d == old(node.d) && node.dirty == old(node.dirty) && t.sb.Available() == old(t.sb.Available())
    ensures ret >= 0 ==>
              && 0 < ret < DEVICE_BLOCKS && node.dirty && t.sb.Available() == old(t.sb.Available()) - 1
              && node.d == WithField(old(node.d).(blockCount := old(node.d).blockCount + 1), s, ret)
              && t.sb.disk[ret] == ZERO_BLOCK && ret in t.owner && t.owner[ret] == Owner(node.nr, s)
    ensures t.ino == old(t.ino)[node.nr := node.d]
    ensures SameData(old(t.sb.disk), t.sb.disk)
    ensures DataMap(old(t.sb.disk), old(t.ino), t.sb.disk, t.ino, node.nr, if ret >= 0 && IsData(s) then s else Loose,
                    ret)
    ensures ret >= 0 ==> SlotUsed(old(t.sb.disk), old(node.d), t.sb.disk, node.d, s)
  {
    hide Ptr, SuperBlock.Valid, BlockView, Accounts, DiskInode, InodeTable.Coherent, DinodeFits, InodeTable.Valid;
    ret := Take(t, node);
    if ret >= 0 {
      ghost var disk, ino, owner := t.sb.disk, t.ino, t.owner;
      PointerFits(t, node, s, ret);
      t.Store(node, WithField(node.d, s, ret));
      t.Relink(ret, s);
      LinkField(disk, ino, owner, node.nr, s, ret);
      LinkDataMap(disk, ino, owner, disk, t.ino, node.nr, s, ret);
      DataMapThen(old(t.sb.disk), old(t.ino), disk, ino, disk, t.ino, node.nr, s, ret);
    }
  }

  /** Freeing the single-indirect block while i_indirect still names it breaks the
      ownership invariant of this inode, but no file changes. */
  lemma Stranded(disk: Disk, ino: seq<Dinode>, owner: Owners, disk': Disk, d': Dinode, n: nat)
    requires Fsck(disk, ino, owner) && n < |ino| && ino[n].indirect != 0
    requires SameData(disk, disk') && SamePointers(ino[n], d') && d'.blockCount == ino[n].blockCount - 1
    requires 0 <= ino[n].indirect < |disk| && disk[ino[n].indirect] == ZERO_BLOCK
    ensures !Fsck(disk', ino[n := d'], owner - {ino[n].indirect})
    ensures FsckSave(disk', ino[n := d'], owner - {ino[n].indirect}, n)
    ensures DataMap(disk, ino, disk', ino[n := d'], n, Loose, 0)
  {
    var b, ino' := ino[n].indirect, ino[n := d'];
    var owner' := owner - {b};
    assert Ptr(disk', ino'[n], Single) == b && Ptr(disk, ino[n], Single) == b;
    assert Recorded(disk, ino[n], n, owner);
    hide Ptr;
    forall m: nat | m < |ino| ensures forall t :: SlotOk(t) ==> Ptr(disk', ino'[m], t) == Ptr(disk, ino[m], t) {
      SameDataSamePtr(disk, disk', ino[m], ino'[m], m, owner);
    }
    UnmovedDataMap(disk, ino, disk', ino', owner, n);
    assert !Recorded(disk', ino'[n], n, owner');
    assert owner == owner'[b := owner[b]];
    forall m: nat | m < |ino| ensures ino'[m].blockCount == |Blocks(owner', m)| { BlocksAdd(owner', b, n, Single, m); }
    FsckIsSave(disk, ino, owner, n);
    forall m: nat | m < |ino'|
      ensures Own(disk', ino'[m], m, owner')
      ensures m != n ==> Recorded(disk', ino'[m], m, owner') && Stored(disk', ino'[m], m, owner')
    {
      assert Own(disk, ino[m], m, owner) && Recorded(disk, ino[m], m, owner) && Stored(disk, ino[m], m, owner);
    }
  }

  lemma RecordedAt(disk: Disk, ino: seq<Dinode>, owner: Owners, n: nat, s: Slot)
    requires Fsck(disk, ino, owner) && n < |ino| && SlotOk(s) && Ptr(disk, ino[n], s) != 0
    ensures var x := Ptr(disk, ino[n], s);
            x in owner && owner[x] == Owner(n, s) && DATA_BLOCKS_START <= x < DEVICE_BLOCKS == |disk|
  {
    assert Recorded(disk, ino[n], n, owner);
  }

  /** Takes a data block and enters it into index block x, whose content is `index`
      (fs/read_write.c:184-187, 219-224). */
  method AllocateEntry(t: InodeTable, node: Inode, s: Slot, x: int, index: Block) returns (ret: int)
    requires t.Cached(node) && SlotOk(s) && (s.SingleEntry? || s.PageEntry?)
    requires x == Ptr(t.sb.disk, node.d, Parent(s)) && 0 < x < |t.sb.disk| && index == t.sb.disk[x]
    requires Ptr(t.sb.disk, node.d, s) == 0
    requires t.Valid() && t.Fsck()
    modifies t`ino, t`owner, t.sb, t.sb.blockFreemap.v, node`d, node`dirty
    ensures NoNewLoose(old(t.owner), t.owner)
    ensures t.sb.live == old(t.sb.live)
    ensures t.Valid() && t.Fsck() && t.Cached(node)
    ensures ret < 0 <==> old(t.sb.Available()) <= 0
    ensures ret < 0 ==> ret == -ENOSPC && t.sb.disk == old(t.sb.disk) && t.ino == old(t.ino) && t.owner == old(t.owner)
    ensures ret < 0 ==>
              node.d == old(node.d) && node.dirty == old(node.dirty) && t.sb.Available() == old(t.sb.Available())
    ensures ret >= 0 ==> 0 < ret && node.dirty && t.sb.Available() == old(t.sb.Available()) - 1
    ensures t.ino == old(t.ino)[node.nr := node.d]
    ensures SameFile(old(node.d), node.d) && SamePointers(old(node.d), node.d)
    ensures DataMap(old(t.sb.disk), old(t.ino), t.sb.disk, t.ino, node.nr, if ret >= 0 then s else Loose, ret)
    ensures ret >= 0 ==> SlotUsed(old(t.sb.disk), old(node.d), t.sb.disk, node.d, s)
  {
    hide SuperBlock.Valid, BlockView, Accounts, DiskInode, InodeTable.Coherent, DinodeFits, InodeTable.Valid, GetInt,
         SetInt, Ptr;
    ghost var nr := node.nr;
    RecordedAt(t.sb.disk, t.ino, t.owner, nr, Parent(s));
    ret := Take(t, node);
    if ret >= 0 {
      ghost var disk, ino, owner := t.sb.disk, t.ino, t.owner;
      DeviceIs32Bit();
      t.WriteDataBlock(x, SetInt(index, EntryNr(s), ret));
      t.Relink(ret, s);
      LinkEntry(disk, ino, owner, nr, s, ret, x, t.sb.disk);
      LinkDataMap(disk, ino, owner, t.sb.disk, t.ino, nr, s, ret);
      DataMapThen(old(t.sb.disk), old(t.ino), disk, ino, t.sb.disk, t.ino, nr, s, ret);
    }
  }

  /** The inode names a block in i_indirect that is free. */
  ghost predicate Dangling(t: InodeTable, node: Inode)
    reads t, node
  {
    node.d.indirect != 0 && node.d.indirect !in t.owner
  }

  lemma DanglingBreaks(t: InodeTable, node: Inode)
    requires t.Cached(node) && Dangling(t, node)
    ensures !t.Fsck()
  {
    hide GetInt;
    assert t.Fsck() ==> Recorded(t.sb.disk, node.d, node.nr, t.owner);
    assert Ptr(t.sb.disk, node.d, Single) == node.d.indirect;
  }

  /** The single-indirect case (fs/read_write.c:206-229). */
  method AllocateSingle(t: InodeTable, node: Inode, k: nat) returns (ret: int)
    requires t.Cached(node) && k < NR_INDIRECT_BLOCKS
    requires Ptr(t.sb.disk, node.d, SingleEntry(k)) == 0
    requires t.Valid() && t.Fsck()
    modifies t`ino, t`owner, t.sb, t.sb.blockFreemap.v, node`d, node`dirty
    ensures NoNewLoose(old(t.owner), t.owner)
    ensures t.sb.live == old(t.sb.live)
    ensures t.FsckSave(node.nr)
    ensures t.Valid() && t.Cached(node)
    ensures t.Fsck() <==> !(old(node.d).indirect == 0 && old(t.sb.Available()) == 1)
    ensures var need := if old(node.d).indirect == 0 then 2 else 1;
            && (ret < 0 <==> old(t.sb.Available()) < need)
            && (ret >= 0 ==> t.sb.Available() == old(t.sb.Available()) - need)
    ensures ret < 0 ==> ret == -ENOSPC
    ensures ret >= 0 ==> 0 < ret && node.dirty
    ensures t.ino == old(t.ino)[node.nr := node.d]
    ensures SameFile(old(node.d), node.d) && node.d.dindirect == old(node.d).dindirect
    ensures node.dirty <==> old(node.dirty) || 0 < old(t.sb.Available())
    ensures old(node.d).indirect != 0 || ret >= 0 ==> node.d.indirect != 0
    ensures DataMap(old(t.sb.disk), old(t.ino), t.sb.disk, t.ino, node.nr, if ret >= 0 then SingleEntry(k) else Loose,
                    ret)
    ensures ret >= 0 ==> Mapped(old(t.sb.disk), old(node.d), t.sb.disk, node.d, SingleEntry(k))
    ensures !t.Fsck() ==> Dangling(t, node)
  {
    hide SuperBlock.Valid, BlockView, Accounts, DiskInode, InodeTable.Coherent, DinodeFits, InodeTable.Valid, GetInt,
         DataMap, FsckBut;
    assert Ptr(t.sb.disk, node.d, Single) == node.d.indirect;
    if node.d.indirect == 0 {
      ret := AllocateField(t, node, Single);
      if ret < 0 {
        FsckIsSave(t.sb.disk, t.ino, t.owner, node.nr);
        return;
      }
      ghost var disk, ino, owner, d := t.sb.disk, t.ino, t.owner, node.d;
      assert Ptr(disk, d, SingleEntry(k)) == 0;
      RecordedAt(disk, ino, owner, node.nr, Single);
      DataMapLoose(old(t.sb.disk), old(t.ino), disk, ino, node.nr, ret, 0);
      ret := AllocateEntry(t, node, SingleEntry(k), node.d.indirect, ZERO_BLOCK);
      if ret < 0 {
        // the index block is freed, but i_indirect keeps its number
        t.FreeBlockFrom(node, node.d.indirect);
        Stranded(disk, ino, owner, t.sb.disk, node.d, node.nr);
        DataMapLoose(disk, ino, t.sb.disk, t.ino, node.nr, 0, ret);
      } else {
        FsckIsSave(t.sb.disk, t.ino, t.owner, node.nr);
        UsedThen(old(t.sb.disk), old(node.d), disk, d, t.sb.disk, node.d, Single, SingleEntry(k));
      }
      DataMapThen(old(t.sb.disk), old(t.ino), disk, ino, t.sb.disk, t.ino, node.nr,
                  if ret >= 0 then SingleEntry(k) else Loose, ret);
    } else {
      RecordedAt(t.sb.disk, t.ino, t.owner, node.nr, Single);
      ret := AllocateEntry(t, node, SingleEntry(k), node.d.indirect, t.sb.disk[node.d.indirect]);
      FsckIsSave(t.sb.disk, t.ino, t.owner, node.nr);
    }
  }

  /** Takes a data block and enters it into a page just taken, and the page into the
      double-indirect block (fs/read_write.c:184-196). When no data block is left the
      page is returned. */
  method FillPage(t: InodeTable, node: Inode, p: nat, o: nat, page: int, index: Block) returns (ret: int)
    requires t.Cached(node) && p < NR_INDIRECT_BLOCKS && o < NR_INDIRECT_BLOCKS
    requires 0 < node.d.dindirect < |t.sb.disk| && index == t.sb.disk[node.d.dindirect]
    requires page in t.owner && t.owner[page] == Owner(node.nr, Loose) && DATA_BLOCKS_START <= page < DEVICE_BLOCKS
    requires Ptr(t.sb.disk, node.d, Page(p)) == 0
    requires t.Valid() && t.Fsck()
    modifies t`ino, t`owner, t.sb, t.sb.blockFreemap.v, node`d, node`dirty
    ensures NoNewLoose(old(t.owner) - {page}, t.owner)
    ensures t.sb.live == old(t.sb.live)
    ensures t.Valid() && t.Fsck() && t.Cached(node)
    ensures ret < 0 <==> old(t.sb.Available()) <= 0
    ensures ret < 0 ==> ret == -ENOSPC && t.owner == old(t.owner) - {page} && SameData(old(t.sb.disk), t.sb.disk)
    ensures ret < 0 ==> node.d == old(node.d).(blockCount := old(node.d).blockCount - 1)
    ensures ret < 0 ==> t.sb.Available() == old(t.sb.Available()) + 1 && node.dirty
    ensures ret >= 0 ==> 0 < ret && node.dirty && t.sb.Available() == old(t.sb.Available()) - 1
    ensures t.ino == old(t.ino)[node.nr := node.d]
    ensures SameFile(old(node.d), node.d) && SamePointers(old(node.d), node.d)
    ensures DataMap(old(t.sb.disk), old(t.ino), t.sb.disk, t.ino, node.nr,
                    if ret >= 0 then PageEntry(p, o) else Loose, ret)
    ensures ret >= 0 ==> Mapped(old(t.sb.disk), old(node.d), t.sb.disk, node.d, PageEntry(p, o))
  {
    hide SuperBlock.Valid, BlockView, Accounts, DiskInode, InodeTable.Coherent, DinodeFits, InodeTable.Valid, GetInt,
         SetInt, FsckBut, DataMap;
    ghost var nr, x := node.nr, node.d.dindirect;
    ghost var disk0, ino0 := t.sb.disk, t.ino;
    assert Ptr(disk0, node.d, Double) == x && Ptr(disk0, node.d, PageEntry(p, o)) == 0;
    assert GetInt(index, p) == 0;
    hide Ptr;
    RecordedAt(disk0, ino0, t.owner, nr, Double);
    DeviceIs32Bit();
    ret := Take(t, node);
    ghost var disk1, ino1 := t.sb.disk, t.ino;
    if ret >= 0 {
      EnterPage(t, node, p, o, page, ret, index);
      DataMapThen(disk0, ino0, disk1, ino1, t.sb.disk, t.ino, nr, PageEntry(p, o), ret);
    } else {
      ReturnPage(t, node, p, page, index);
      DataMapThen(disk0, ino0, disk1, ino1, t.sb.disk, t.ino, nr, Loose, 0);
      DataMapLoose(disk0, ino0, t.sb.disk, t.ino, nr, 0, ret);
    }
  }

  /** The page is written with its one entry, then the double-indirect block with the
      page (fs/read_write.c:186-189). */
  method EnterPage(t: InodeTable, node: Inode, p: nat, o: nat, page: int, b: int, index: Block)
    requires t.Cached(node) && p < NR_INDIRECT_BLOCKS && o < NR_INDIRECT_BLOCKS
    requires DATA_BLOCKS_START <= node.d.dindirect < |t.sb.disk| && index == t.sb.disk[node.d.dindirect]
    requires page in t.owner && t.owner[page] == Owner(node.nr, Loose) && DATA_BLOCKS_START <= page < 0x8000_0000
    requires b in t.owner && t.owner[b] == Owner(node.nr, Loose) && 0 <= b < 0x8000_0000 && page != b
    requires Ptr(t.sb.disk, node.d, Page(p)) == 0 && Ptr(t.sb.disk, node.d, PageEntry(p, o)) == 0
    requires t.Valid() && t.Fsck()
    modifies t`ino, t`owner, t.sb`disk
    ensures NoNewLoose(old(t.owner) - {page, b}, t.owner)
    ensures t.Valid() && t.Fsck() && t.Cached(node) && t.ino == old(t.ino)
    ensures DataMap(old(t.sb.disk), old(t.ino), t.sb.disk, t.ino, node.nr, PageEntry(p, o), b)
    ensures Mapped(old(t.sb.disk), node.d, t.sb.disk, node.d, PageEntry(p, o))
  {
    hide SuperBlock.Valid, BlockView, Accounts, DiskInode, InodeTable.Coherent, DinodeFits, InodeTable.Valid, GetInt,
         SetInt, Ptr;
    ghost var disk, ino, owner := t.sb.disk, t.ino, t.owner;
    t.WriteDataBlock(page, SetInt(ZERO_BLOCK, o, b));
    t.WriteDataBlock(node.d.dindirect, SetInt(index, p, page));
    t.Relink(page, Page(p));
    t.Relink(b, PageEntry(p, o));
    LinkPage(disk, ino, owner, node.nr, p, o, page, b, t.sb.disk);
  }

  /** The page is returned and its entry in the double-indirect block zeroed again
      (fs/read_write.c:192-196). */
  method ReturnPage(t: InodeTable, node: Inode, p: nat, page: int, index: Block)
    requires t.Cached(node) && p < NR_INDIRECT_BLOCKS && 0 < page < 0x8000_0000
    requires DATA_BLOCKS_START <= node.d.dindirect < |t.sb.disk| && index == t.sb.disk[node.d.dindirect]
    requires GetInt(index, p) == 0
    requires page in t.owner && t.owner[page] == Owner(node.nr, Loose) && page != node.d.dindirect
    requires t.Valid() && t.Fsck()
    modifies t`ino, t`owner, t.sb, t.sb.blockFreemap.v, node`d, node`dirty
    ensures NoNewLoose(old(t.owner), t.owner)
    ensures t.sb.live == old(t.sb.live)
    ensures t.Valid() && t.Fsck() && t.Cached(node)
    ensures t.owner == old(t.owner) - {page} && SameData(old(t.sb.disk), t.sb.disk)
    ensures node.d == old(node.d).(blockCount := old(node.d).blockCount - 1)
    ensures t.ino == old(t.ino)[node.nr := node.d]
    ensures t.sb.Available() == old(t.sb.Available()) + 1 && node.dirty
    ensures DataMap(old(t.sb.disk), old(t.ino), t.sb.disk, t.ino, node.nr, Loose, 0)
  {
    hide SuperBlock.Valid, BlockView, Accounts, DiskInode, InodeTable.Coherent, DinodeFits, InodeTable.Valid, GetInt,
         SetInt, Ptr;
    ghost var disk, ino, owner := t.sb.disk, t.ino, t.owner;
    SetBack(index, p, page);
    assert disk[page] == ZERO_BLOCK;
    t.FreeBlockFrom(node, page);
    t.WriteDataBlock(node.d.dindirect, SetInt(SetInt(index, p, page), p, 0));
    DropKeepsFsck(disk, ino, owner, t.sb.disk, node.d, node.nr, page);
    UnmovedDataMap(disk, ino, t.sb.disk, t.ino, owner, node.nr);
  }

  /** Page and data block linked together; the page is written before the block that
      names it. */
  lemma LinkPage(disk: Disk, ino: seq<Dinode>, owner: Owners, n: nat, p: nat, o: nat, page: int, b: int, disk': Disk)
    requires Fsck(disk, ino, owner) && n < |ino| && p < NR_INDIRECT_BLOCKS && o < NR_INDIRECT_BLOCKS
    requires page in owner && owner[page] == Owner(n, Loose) && b in owner && owner[b] == Owner(n, Loose) && page != b
    requires ino[n].dindirect != 0 && Ptr(disk, ino[n], Page(p)) == 0 && Ptr(disk, ino[n], PageEntry(p, o)) == 0
    requires 0 < ino[n].dindirect < |disk| && page < 0x8000_0000 && b < 0x8000_0000
    requires disk' == disk[page := SetInt(ZERO_BLOCK, o, b)][ino[n].dindirect := SetInt(disk[ino[n].dindirect], p,
                 page)]
    ensures Fsck(disk', ino, owner[page := Owner(n, Page(p))][b := Owner(n, PageEntry(p, o))])
    ensures DataMap(disk, ino, disk', ino, n, PageEntry(p, o), b)
    ensures Mapped(disk, ino[n], disk', ino[n], PageEntry(p, o))
  {
    hide GetInt, SetInt, BlockView, Counted;
    var x := ino[n].dindirect;
    assert Ptr(disk, ino[n], Double) == x;
    assert Recorded(disk, ino[n], n, owner);
    assert x in owner && owner[x] == Owner(n, Double);
    hide Ptr;
    var disk1, owner1 := disk[x := SetInt(disk[x], p, page)], owner[page := Owner(n, Page(p))];
    LinkEntry(disk, ino, owner, n, Page(p), page, x, disk1);
    LinkDataMap(disk, ino, owner, disk1, ino, n, Page(p), page);
    assert disk1[page] == ZERO_BLOCK;
    assert disk' == disk1[page := SetInt(disk1[page], o, b)];
    LinkEntry(disk1, ino, owner1, n, PageEntry(p, o), b, page, disk');
    LinkDataMap(disk1, ino, owner1, disk', ino, n, PageEntry(p, o), b);
    DataMapThen(disk, ino, disk1, ino, disk', ino, n, PageEntry(p, o), b);
  }

  /** A double-indirect block just taken is returned (fs/read_write.c:197-200). */
  method ReturnDouble(t: InodeTable, node: Inode)
    requires t.Cached(node) && 0 < node.d.dindirect < |t.sb.disk| && t.sb.disk[node.d.dindirect] == ZERO_BLOCK
    requires t.Valid() && t.Fsck()
    modifies t`ino, t`owner, t.sb, t.sb.blockFreemap.v, node`d, node`dirty
    ensures NoNewLoose(old(t.owner), t.owner)
    ensures t.sb.live == old(t.sb.live)
    ensures t.Valid() && t.Fsck() && t.Cached(node)
    ensures t.sb.Available() == old(t.sb.Available()) + 1 && node.dirty
    ensures node.d == old(node.d).(dindirect := 0, blockCount := old(node.d).blockCount - 1)
    ensures t.ino == old(t.ino)[node.nr := node.d]
    ensures DataMap(old(t.sb.disk), old(t.ino), t.sb.disk, t.ino, node.nr, Loose, 0)
  {
    hide SuperBlock.Valid, BlockView, Accounts, DiskInode, InodeTable.Coherent, DinodeFits, InodeTable.Valid, GetInt,
         DataMap;
    ghost var disk, ino, owner := t.sb.disk, t.ino, t.owner;
    assert Ptr(disk, node.d, Double) == node.d.dindirect;
    RecordedAt(disk, ino, owner, node.nr, Double);
    hide Ptr;
    t.FreeBlockFrom(node, node.d.dindirect);
    PointerFits(t, node, Double, 0);
    t.Store(node, node.d.(dindirect := 0));
    assert t.ino == ino[node.nr := node.d];
    UnlinkKeepsFsck(disk, ino, owner, t.sb.disk, node.d, node.nr, Double);
    UnmovedDataMap(disk, ino, t.sb.disk, t.ino, owner, node.nr);
  }

  /** The double-indirect block is there (fs/read_write.c:162-196); `early` tells the
      return at 174, for want of a page, from the failure at 191. */
  method AllocateInDouble(t: InodeTable, node: Inode, p: nat, o: nat) returns (ret: int, early: bool)
    requires t.Cached(node) && p < NR_INDIRECT_BLOCKS && o < NR_INDIRECT_BLOCKS
    requires node.d.dindirect != 0 && Ptr(t.sb.disk, node.d, PageEntry(p, o)) == 0
    requires t.Valid() && t.Fsck()
    modifies t`ino, t`owner, t.sb, t.sb.blockFreemap.v, node`d, node`dirty
    ensures NoNewLoose(old(t.owner), t.owner)
    ensures t.sb.live == old(t.sb.live)
    ensures t.Valid() && t.Fsck() && t.Cached(node)
    ensures var need := DoubleCost(old(t.sb.disk), old(node.d), p);
            && (ret < 0 <==> old(t.sb.Available()) < need)
            && (early <==> need == 2 && old(t.sb.Available()) <= 0)
            && (ret >= 0 ==> t.sb.Available() == old(t.sb.Available()) - need)
    ensures ret < 0 ==> ret == -ENOSPC && node.d == old(node.d) && SameData(old(t.sb.disk), t.sb.disk)
    ensures ret < 0 ==> t.sb.Available() == old(t.sb.Available())
    ensures node.dirty <==> old(node.dirty) || 0 < old(t.sb.Available())
    ensures ret >= 0 ==> 0 < ret && node.dirty
    ensures t.ino == old(t.ino)[node.nr := node.d]
    ensures SameFile(old(node.d), node.d) && SamePointers(old(node.d), node.d)
    ensures DataMap(old(t.sb.disk), old(t.ino), t.sb.disk, t.ino, node.nr,
                    if ret >= 0 then PageEntry(p, o) else Loose, ret)
    ensures ret >= 0 ==> Mapped(old(t.sb.disk), old(node.d), t.sb.disk, node.d, PageEntry(p, o))
  {
    hide SuperBlock.Valid, BlockView, Accounts, DiskInode, InodeTable.Coherent, DinodeFits, InodeTable.Valid, GetInt,
         DataMap, FsckBut;
    ghost var nr, disk0, ino0, owner0 := node.nr, t.sb.disk, t.ino, t.owner;
    assert Ptr(disk0, node.d, Double) == node.d.dindirect;
    RecordedAt(disk0, ino0, owner0, nr, Double);
    var index := t.sb.disk[node.d.dindirect];
    var page := GetInt(index, p);
    assert page == Ptr(disk0, node.d, Page(p));
    early := false;
    if page == 0 {
      page := Take(t, node);
      if page < 0 {
        DataMapLoose(disk0, ino0, t.sb.disk, t.ino, nr, 0, page);
        return page, true;
      }
      ghost var disk1, ino1 := t.sb.disk, t.ino;
      ret := FillPage(t, node, p, o, page, index);
      DataMapThen(disk0, ino0, disk1, ino1, t.sb.disk, t.ino, nr, if ret >= 0 then PageEntry(p, o) else Loose, ret);
    } else {
      RecordedAt(disk0, ino0, owner0, nr, Page(p));
      ret := AllocateEntry(t, node, PageEntry(p, o), page, t.sb.disk[page]);
    }
  }

  /** The double-indirect case (fs/read_write.c:140-203). The early return keeps a
      double-indirect block without entries. */
  method AllocateDouble(t: InodeTable, node: Inode, p: nat, o: nat) returns (ret: int)
    requires t.Cached(node) && p < NR_INDIRECT_BLOCKS && o < NR_INDIRECT_BLOCKS
    requires Ptr(t.sb.disk, node.d, PageEntry(p, o)) == 0
    requires t.Valid() && t.Fsck()
    modifies t`ino, t`owner, t.sb, t.sb.blockFreemap.v, node`d, node`dirty
    ensures NoNewLoose(old(t.owner), t.owner)
    ensures t.sb.live == old(t.sb.live)
    ensures t.Valid() && t.Fsck() && t.Cached(node)
    ensures var need := DoubleCost(old(t.sb.disk), old(node.d), p);
            && (ret < 0 <==> old(t.sb.Available()) < need)
            && (ret >= 0 ==> t.sb.Available() == old(t.sb.Available()) - need)
    ensures ret < 0 ==> ret == -ENOSPC
    ensures ret < 0 ==> node.d == old(node.d) || (old(node.d).dindirect == 0 && old(t.sb.Available()) == 1)
    ensures ret < 0 ==> (node.d.dindirect != 0 <==> old(node.d).dindirect != 0 || old(t.sb.Available()) == 1)
    ensures node.dirty <==> old(node.dirty) || 0 < old(t.sb.Available())
    ensures ret >= 0 ==> 0 < ret && node.dirty
    ensures t.ino == old(t.ino)[node.nr := node.d]
    ensures SameFile(old(node.d), node.d) && node.d.indirect == old(node.d).indirect
    ensures DataMap(old(t.sb.disk), old(t.ino), t.sb.disk, t.ino, node.nr,
                    if ret >= 0 then PageEntry(p, o) else Loose, ret)
    ensures ret >= 0 ==> Mapped(old(t.sb.disk), old(node.d), t.sb.disk, node.d, PageEntry(p, o))
  {
    hide SuperBlock.Valid, BlockView, Accounts, DiskInode, InodeTable.Coherent, DinodeFits, InodeTable.Valid, GetInt,
         DataMap, FsckBut;
    ghost var nr, disk0, ino0 := node.nr, t.sb.disk, t.ino;
    assert Ptr(disk0, node.d, Double) == node.d.dindirect;
    var early;
    if node.d.dindirect == 0 {
      ret := AllocateField(t, node, Double);
      if ret < 0 {
        return;
      }
      GetIntZeros(BLOCK_SIZE, p);
      ghost var disk1, ino1 := t.sb.disk, t.ino;
      DataMapLoose(disk0, ino0, disk1, ino1, nr, ret, 0);
      RecordedAt(disk1, ino1, t.owner, nr, Double);
      assert Ptr(disk1, node.d, Page(p)) == 0 && Ptr(disk1, node.d, PageEntry(p, o)) == 0;
      ret, early := AllocateInDouble(t, node, p, o);
      DataMapThen(disk0, ino0, disk1, ino1, t.sb.disk, t.ino, nr, if ret >= 0 then PageEntry(p, o) else Loose, ret);
      if ret < 0 && !early {
        ghost var disk2, ino2 := t.sb.disk, t.ino;
        DataMapLoose(disk0, ino0, disk2, ino2, nr, ret, 0);
        ReturnDouble(t, node);
        DataMapThen(disk0, ino0, disk2, ino2, t.sb.disk, t.ino, nr, Loose, 0);
        DataMapLoose(disk0, ino0, t.sb.disk, t.ino, nr, 0, ret);
      }
    } else {
      ret, early := AllocateInDouble(t, node, p, o);
    }
  }

  /** Maps logical block l, taking the blocks that needs, or takes none that is kept.
      `block` receives what the block held. No outcome changes the content of any file.
      The ownership invariant is lost in exactly one case, the rollback of the
      single-indirect block. */
  method AllocateBlock(t: InodeTable, node: Inode, l: nat) returns (ret: int, block: Block)
    requires t.Cached(node)
    requires t.Valid() && t.Fsck()
    modifies t`ino, t`owner, t.sb, t.sb.blockFreemap.v, node`d, node`dirty
    ensures NoNewLoose(old(t.owner), t.owner)
    ensures t.sb.live == old(t.sb.live)
    ensures t.FsckSave(node.nr)
    ensures t.Valid() && t.Cached(node)
    ensures t.ino == old(t.ino)[node.nr := node.d] && SameFile(old(node.d), node.d)
    ensures l >= NR_MAX_BLOCK ==> ret == EFBIG && t.Fsck() && node.d == old(node.d) && t.sb.disk == old(t.sb.disk)
    ensures l < NR_MAX_BLOCK ==> (t.Fsck() <==> !Strands(old(t.sb.disk), old(node.d), l, old(t.sb.Available())))
    ensures l < NR_MAX_BLOCK ==> (ret < 0 <==> old(t.sb.Available()) < Cost(old(t.sb.disk), old(node.d), l))
    ensures l < NR_MAX_BLOCK && ret < 0 ==> ret == -ENOSPC
    ensures l < NR_MAX_BLOCK && ret >= 0 ==>
              && 0 < ret && t.Fsck() && block == BlockView(old(t.sb.disk), old(node.d), l)
              && Ptr(t.sb.disk, node.d, SlotOf(l)) == ret
              && t.sb.Available() == old(t.sb.Available()) - Cost(old(t.sb.disk), old(node.d), l)
    ensures l < NR_MAX_BLOCK ==>
              DataMap(old(t.sb.disk), old(t.ino), t.sb.disk, t.ino, node.nr, if ret >= 0 then SlotOf(l) else Loose, ret)
    ensures l < NR_MAX_BLOCK && ret >= 0 ==> Mapped(old(t.sb.disk), old(node.d), t.sb.disk, node.d, SlotOf(l))
    // a failure keeps a double-indirect block it has taken only where it returns for want of a page
    ensures l < NR_MAX_BLOCK && ret < 0 ==>
              (node.d.dindirect != 0 <==>
                 old(node.d).dindirect != 0 || (SlotOf(l).PageEntry? && old(t.sb.Available()) == 1))
    // the inode has unsaved changes if a block was needed and there was one, even if not enough
    ensures l < NR_MAX_BLOCK ==>
              (node.dirty <==>
                 old(node.dirty) || (0 < Cost(old(t.sb.disk), old(node.d), l) && 0 < old(t.sb.Available())))
    ensures l >= NR_MAX_BLOCK ==> node.dirty == old(node.dirty)
    ensures !t.Fsck() ==> Dangling(t, node)
    ensures l < NR_DIRECT_BLOCKS && ret < 0 ==>
              t.sb.disk == old(t.sb.disk) && t.ino == old(t.ino) && t.owner == old(t.owner) && node.d == old(node.d)
  {
    hide SuperBlock.Valid, BlockView, Accounts, DiskInode, InodeTable.Coherent, DinodeFits, InodeTable.Valid, GetInt,
         FsckBut;
    block := ZERO_BLOCK;
    FsckIsSave(t.sb.disk, t.ino, t.owner, node.nr);
    if l >= NR_MAX_BLOCK {
      return EFBIG, block;
    }
    ret, block := ReadBlock(t, node, l);
    if ret != 0 {
      RecordedAt(t.sb.disk, t.ino, t.owner, node.nr, SlotOf(l));
      AvailableIsNat(t);
      DataMapSame(t.sb.disk, t.ino, t.owner, node.nr, SlotOf(l));
      return;
    }
    if l < NR_DIRECT_BLOCKS {
      ret := AllocateField(t, node, Direct(l));
      FsckIsSave(t.sb.disk, t.ino, t.owner, node.nr);
      return;
    }
    var k := l - NR_DIRECT_BLOCKS;
    if k >= NR_INDIRECT_BLOCKS {
      k := k - NR_INDIRECT_BLOCKS;
      var offset := k % NR_INDIRECT_BLOCKS;
      var pg := k / NR_INDIRECT_BLOCKS;
      assert SlotOf(l) == PageEntry(pg, offset);
      ret := AllocateDouble(t, node, pg, offset);
      FsckIsSave(t.sb.disk, t.ino, t.owner, node.nr);
      return;
    }
    ret := AllocateSingle(t, node, k);
  }

  /** The inode keeps its type and size. */
  predicate SameFile(d: Dinode, d': Dinode) {
    d'.kind == d.kind && d'.size == d.size
  }
}
