/** fs/inode.c: inodes packed into the inode table on the device, and the table of
    reference-counted inodes in memory. */
module FsInode {
  import opened FsLayout
  import opened FsCodec
  import opened Arith
  import opened FsBitmap
  import opened FsOwnership
  import opened FsSuper

  // ---- struct dinode on the device ----

  predicate Fits32(x: int) { -0x8000_0000 <= x < 0x8000_0000 }

  predicate DinodeFits(d: Dinode) {
    && |d.direct| == NR_DIRECT_BLOCKS
    && Fits32(d.kind) && Fits32(d.indirect) && Fits32(d.dindirect) && Fits32(d.blockCount)
    && (forall i :: 0 <= i < |d.direct| ==> Fits32(d.direct[i]))
    && 0 <= d.size < 0x8000_0000_0000_0000
  }

  function DinodeInts(d: Dinode): (xs: seq<s32>)
    requires DinodeFits(d)
    ensures |xs| == NR_DIRECT_BLOCKS + 4
  {
    [d.kind] + d.direct + [d.indirect, d.dindirect, d.blockCount]
  }

  function EncodeDinode(d: Dinode): (b: Bytes)
    requires DinodeFits(d)
    ensures |b| == DINODE_SIZE
  {
    Ints(DinodeInts(d)) + LeBytes(d.size, 8)
  }

  function DecodeDinode(b: Bytes): (d: Dinode)
    requires |b| == DINODE_SIZE
    ensures |d.direct| == NR_DIRECT_BLOCKS
  {
    Dinode(GetInt(b, 0), seq(NR_DIRECT_BLOCKS, i requires 0 <= i < NR_DIRECT_BLOCKS => GetInt(b, 1 + i)),
           GetInt(b, NR_DIRECT_BLOCKS + 1), GetInt(b, NR_DIRECT_BLOCKS + 2), GetInt(b, NR_DIRECT_BLOCKS + 3),
           LeNat(b[DINODE_SIZE - 8..]))
  }

  lemma DinodeIntAt(d: Dinode, i: nat)
    requires DinodeFits(d) && i < NR_DIRECT_BLOCKS + 4
    ensures GetInt(EncodeDinode(d), i) == DinodeInts(d)[i]
  {
    IntsAt(DinodeInts(d), LeBytes(d.size, 8), i);
  }

  lemma DinodeSizeAt(d: Dinode)
    requires DinodeFits(d)
    ensures LeNat(EncodeDinode(d)[DINODE_SIZE - 8..]) == d.size
  {
    assert Pow256(8) == 0x1_0000_0000_0000_0000;
    LeRoundTrip(d.size, 8);
    hide LeNat, LeBytes, Ints;
    assert EncodeDinode(d)[DINODE_SIZE - 8..] == LeBytes(d.size, 8);
  }

  lemma DinodeRoundTrip(d: Dinode)
    requires DinodeFits(d)
    ensures DecodeDinode(EncodeDinode(d)) == d
  {
    hide GetInt, LeNat, EncodeDinode;
    var b := EncodeDinode(d);
    DinodeSizeAt(d);
    DinodeIntAt(d, 0);
    DinodeIntAt(d, NR_DIRECT_BLOCKS + 1);
    DinodeIntAt(d, NR_DIRECT_BLOCKS + 2);
    DinodeIntAt(d, NR_DIRECT_BLOCKS + 3);
    forall i: nat | i < NR_DIRECT_BLOCKS ensures DecodeDinode(b).direct[i] == d.direct[i] {
      DinodeIntAt(d, 1 + i);
    }
    assert DecodeDinode(b).direct == d.direct;
  }

  // ---- slots of the inode table ----

  /** The inode block that holds inode n, relative to the first. */
  function InodeBlock(n: nat): nat {
    Split(INODES_PER_BLOCK, n, 0);
    n / INODES_PER_BLOCK
  }

  function InodeOffset(n: nat): nat {
    Split(INODES_PER_BLOCK, n, 0);
    (n % INODES_PER_BLOCK) * DINODE_SIZE
  }

  /** A slot lies inside its block, and two slots of one block do not overlap. */
  lemma SlotFits(n: nat)
    requires n < NR_INODES
    ensures InodeBlock(n) < NR_INODE_BLOCKS && InodeOffset(n) + DINODE_SIZE <= BLOCK_SIZE
  {
    assert Relations(SHAPE);
    Split(INODES_PER_BLOCK, n, NR_INODE_BLOCKS);
    SlotWithin(n % INODES_PER_BLOCK);
  }

  lemma SlotWithin(k: nat)
    requires k < INODES_PER_BLOCK
    ensures k * DINODE_SIZE + DINODE_SIZE <= BLOCK_SIZE
  {
    assert Relations(SHAPE);
    if k + 1 < INODES_PER_BLOCK { Below(DINODE_SIZE, k + 1, 0, INODES_PER_BLOCK, 0); }
  }

  lemma SlotsDisjoint(n: nat, m: nat)
    requires n != m && InodeBlock(n) == InodeBlock(m)
    ensures InodeOffset(n) + DINODE_SIZE <= InodeOffset(m) || InodeOffset(m) + DINODE_SIZE <= InodeOffset(n)
  {
    Split(INODES_PER_BLOCK, n, 0);
    Split(INODES_PER_BLOCK, m, 0);
    var i, j := n % INODES_PER_BLOCK, m % INODES_PER_BLOCK;
    if i < j { SlotAfter(i, j); } else { SlotAfter(j, i); }
  }

  lemma SlotAfter(i: nat, j: nat)
    requires i < j
    ensures i * DINODE_SIZE + DINODE_SIZE <= j * DINODE_SIZE
  {
    if i + 1 < j { Below(DINODE_SIZE, i + 1, 0, j, 0); }
  }

  /** The bytes of inode slot n. */
  function SlotBytes(disk: Disk, n: nat): (b: Bytes)
    requires |disk| == DEVICE_BLOCKS && n < NR_INODES
    ensures |b| == DINODE_SIZE
  {
    SlotFits(n);
    disk[INODE_BLOCKS_START + InodeBlock(n)][InodeOffset(n)..InodeOffset(n) + DINODE_SIZE]
  }

  function DiskInode(disk: Disk, n: nat): (d: Dinode)
    requires |disk| == DEVICE_BLOCKS && n < NR_INODES
    ensures |d.direct| == NR_DIRECT_BLOCKS
  {
    DecodeDinode(SlotBytes(disk, n))
  }

  /** The inode block of n with slot n replaced. */
  function WithSlot(block: Block, n: nat, d: Dinode): Block
    requires n < NR_INODES && DinodeFits(d)
  {
    SlotFits(n);
    block[..InodeOffset(n)] + EncodeDinode(d) + block[InodeOffset(n) + DINODE_SIZE..]
  }

  lemma Spliced(b: Bytes, at: nat, e: Bytes)
    requires at + |e| <= |b|
    ensures (b[..at] + e + b[at + |e|..])[at..at + |e|] == e
  {}

  lemma SplicedElsewhere(b: Bytes, at: nat, e: Bytes, lo: nat, hi: nat)
    requires at + |e| <= |b| && lo <= hi <= |b| && (hi <= at || at + |e| <= lo)
    ensures (b[..at] + e + b[at + |e|..])[lo..hi] == b[lo..hi]
  {}

  /** Writing one slot changes that slot and no other, in the same block or elsewhere. */
  lemma SlotWritten(disk: Disk, n: nat, d: Dinode, m: nat)
    requires |disk| == DEVICE_BLOCKS && n < NR_INODES && m < NR_INODES && DinodeFits(d)
    ensures var b := INODE_BLOCKS_START + InodeBlock(n);
            && 0 <= b < DATA_BLOCKS_START
            && DiskInode(disk[b := WithSlot(disk[b], n, d)], m) == if m == n then d else DiskInode(disk, m)
  {
    hide InodeBlock, InodeOffset, EncodeDinode, DecodeDinode;
    SlotFits(n);
    SlotFits(m);
    DinodeRoundTrip(d);
    var b := INODE_BLOCKS_START + InodeBlock(n);
    if m == n {
      Spliced(disk[b], InodeOffset(n), EncodeDinode(d));
    } else if InodeBlock(n) == InodeBlock(m) {
      SlotsDisjoint(n, m);
      SplicedElsewhere(disk[b], InodeOffset(n), EncodeDinode(d), InodeOffset(m), InodeOffset(m) + DINODE_SIZE);
    }
  }

  /** Inode slots depend on the inode blocks only. */
  lemma DiskInodeFrame(disk: Disk, disk': Disk)
    requires |disk| == |disk'| == DEVICE_BLOCKS
    requires forall b :: INODE_BLOCKS_START <= b < DATA_BLOCKS_START ==> disk'[b] == disk[b]
    ensures forall n: nat :: n < NR_INODES ==> DiskInode(disk', n) == DiskInode(disk, n)
  {
    hide InodeBlock, InodeOffset, DecodeDinode;
    forall n: nat | n < NR_INODES ensures DiskInode(disk', n) == DiskInode(disk, n) { SlotFits(n); }
  }

  // ---- struct inode and the inode hash table ----

  /** d: the disk inode structure; count: the reference count */
  class Inode {
    var d: Dinode
    var dirty: bool
    const nr: nat
    var count: nat

    constructor (nr: nat, d: Dinode)
      ensures this.nr == nr && this.d == d && !dirty && count == 1
    {
      this.nr := nr;
      this.d := d;
      dirty := false;
      count := 1;
    }
  }

  // ---- block accounting ----

  /** Every inode fits its slot, and its block count is the number of data blocks
      it owns. */
  ghost predicate Accounts(ino: seq<Dinode>, owner: Owners) {
    && |ino| == NR_INODES
    && (forall n :: 0 <= n < |ino| ==> DinodeFits(ino[n]))
    && (forall b :: b in owner ==> DATA_BLOCKS_START <= b < DEVICE_BLOCKS && owner[b].inode < |ino|)
    && Counted(ino, owner)
  }

  lemma {:induction false} IntervalSize(s: set<int>, lo: int, hi: int)
    requires lo <= hi && forall x :: x in s ==> lo <= x < hi
    ensures |s| <= hi - lo
    decreases hi - lo
  {
    if lo < hi {
      IntervalSize(s - {hi - 1}, lo, hi - 1);
    } else {
      assert s == {};
    }
  }

  lemma AccountsBound(ino: seq<Dinode>, owner: Owners, n: nat)
    requires Accounts(ino, owner) && n < |ino|
    ensures 0 <= ino[n].blockCount <= NR_DATA_BLOCKS && NR_DATA_BLOCKS + 1 < 0x8000_0000
  {
    DeviceIs32Bit();
    IntervalSize(Blocks(owner, n), DATA_BLOCKS_START, DEVICE_BLOCKS);
  }

  lemma AccountsFit(ino: seq<Dinode>, owner: Owners, n: nat)
    requires Accounts(ino, owner) && n < |ino|
    ensures DinodeFits(ino[n]) && |ino[n].direct| == NR_DIRECT_BLOCKS
  {}

  lemma FitsSized(d: Dinode)
    requires DinodeFits(d)
    ensures |d.direct| == NR_DIRECT_BLOCKS
  {}

  lemma DataNumber(ino: seq<Dinode>, owner: Owners, b: int)
    requires Accounts(ino, owner) && b in owner
    ensures DATA_BLOCKS_START <= b < DEVICE_BLOCKS
  {}

  /** Fields other than the block count may change. */
  lemma AccountsStore(ino: seq<Dinode>, owner: Owners, n: nat, d: Dinode)
    requires Accounts(ino, owner) && n < |ino| && DinodeFits(d) && d.blockCount == ino[n].blockCount
    ensures Accounts(ino[n := d], owner)
  {}

  lemma AccountsCharge(ino: seq<Dinode>, owner: Owners, b: int, n: nat)
    requires Accounts(ino, owner) && n < |ino| && b !in owner && DATA_BLOCKS_START <= b < DEVICE_BLOCKS
    ensures Accounts(ino[n := ino[n].(blockCount := ino[n].blockCount + 1)], owner[b := Owner(n, Loose)])
  {
    AccountsBound(ino, owner, n);
    forall m: nat | m < |ino| { BlocksAdd(owner, b, n, Loose, m); }
    hide Blocks;
  }

  lemma AccountsReturn(ino: seq<Dinode>, owner: Owners, b: int, n: nat)
    requires Accounts(ino, owner) && b in owner && owner[b].inode == n
    ensures Accounts(ino[n := ino[n].(blockCount := ino[n].blockCount - 1)], owner - {b})
  {
    var rest := owner - {b};
    AccountsBound(ino, owner, n);
    assert owner == rest[b := owner[b]];
    forall m: nat | m < |ino| { BlocksAdd(rest, b, n, owner[b].slot, m); }
    hide Blocks;
  }

  /** The inodes in memory, by number, over a super block. The two ghost fields
      give the current content of every inode and the owner of every data block
      in use. */
  class InodeTable {
    const sb: SuperBlock
    var table: map<nat, Inode>
    ghost var ino: seq<Dinode>
    ghost var owner: Owners

    /** An empty table over a mounted super block; the device holds the inodes,
        and `owner` is who owns the blocks in use. */
    constructor (sb: SuperBlock, ghost owner: Owners)
      requires sb.Valid() && |sb.disk| == DEVICE_BLOCKS && sb.used == owner.Keys
      requires forall n: nat :: n < NR_INODES ==> DinodeFits(DiskInode(sb.disk, n))
      requires forall n: nat :: n < NR_INODES ==> DiskInode(sb.disk, n).blockCount == |Blocks(owner, n)|
      requires forall b :: b in owner ==> DATA_BLOCKS_START <= b < DEVICE_BLOCKS && owner[b].inode < NR_INODES
      ensures Valid() && this.sb == sb && table == map[] && this.owner == owner
      ensures |ino| == NR_INODES && forall n: nat :: n < NR_INODES ==> ino[n] == DiskInode(sb.disk, n)
    {
      hide DiskInode, DinodeFits, SuperBlock.Valid;
      var disk := sb.disk;
      this.sb := sb;
      table := map[];
      ino := seq(NR_INODES, n requires 0 <= n < NR_INODES => DiskInode(disk, n));
      this.owner := owner;
    }

    /** A cached inode is current; a clean one equals its slot on the device; the
        slot of an uncached one is current. */
    ghost predicate Coherent()
      requires |sb.disk| == DEVICE_BLOCKS && |ino| == NR_INODES
      reads this, sb, table.Values
    {
      && (forall n :: n in table ==>
            n < NR_INODES && table[n].nr == n && 0 < table[n].count && table[n].d == ino[n])
      && (forall n: nat :: n < NR_INODES && (n in table ==> !table[n].dirty) ==> DiskInode(sb.disk, n) == ino[n])
    }

    ghost predicate Valid()
      reads this, sb, sb.inodeFreemap.v, sb.blockFreemap.v, table.Values
    {
      && sb.Valid()
      && |sb.disk| == DEVICE_BLOCKS && |ino| == NR_INODES
      && sb.used == owner.Keys
      && Accounts(ino, owner)
      && Coherent()
    }

    /** The ownership invariant holds. */
    ghost predicate Fsck()
      reads this, sb
    {
      FsOwnership.Fsck(sb.disk, ino, owner)
    }

    /** It holds but for one inode, which stores no block number of another. */
    ghost predicate FsckSave(skip: int)
      reads this, sb
    {
      FsOwnership.FsckSave(sb.disk, ino, owner, skip)
    }

    /** The inode is the cached one of its number, and current. */
    ghost predicate Cached(node: Inode)
      reads this, node
    {
      && node.nr in table && table[node.nr] == node
      && node.nr < |ino| == NR_INODES && ino[node.nr] == node.d && |node.d.direct| == NR_DIRECT_BLOCKS
    }

    /** The slot recorded for a block in use; no field of the program changes. */
    ghost method Relink(b: int, s: Slot)
      requires Valid() && b in owner
      modifies this`owner
      ensures Valid() && owner == old(owner)[b := Owner(old(owner)[b].inode, s)]
    {
      hide DiskInode, DinodeFits, SuperBlock.Valid;
      ghost var owner' := owner[b := Owner(owner[b].inode, s)];
      forall m: nat | m < |ino| ensures Blocks(owner', m) == Blocks(owner, m) {}
      assert owner'.Keys == owner.Keys;
      owner := owner';
    }

    ghost function Held(nr: nat): set<Inode>
      reads this
    {
      if nr in table then {table[nr]} else {}
    }

    /** The cached inode, or a new one read from its slot. At most one inode of a
        number is ever in memory. */
    method GetInode(nr: nat) returns (node: Inode)
      requires Valid() && nr < NR_INODES
      modifies this`table, Held(nr)`count
      ensures Valid() && Cached(node) && node.nr == nr
      ensures table == old(table)[nr := node]
      ensures nr in old(table) ==> node == old(table[nr]) && node.count == old(table[nr].count) + 1
      ensures nr in old(table) ==> node.d == old(table[nr].d) && node.dirty == old(table[nr].dirty)
      ensures nr !in old(table) ==> fresh(node) && node.count == 1 && !node.dirty
    {
      hide DiskInode, DinodeFits, SuperBlock.Valid, Accounts;
      AccountsFit(ino, owner, nr);
      if nr in table {
        node := table[nr];
        node.count := node.count + 1;
        assert table == table[nr := node];
        return;
      }
      node := new Inode(nr, DiskInode(sb.disk, nr));
      table := table[nr := node];
    }

    /** Writes a dirty inode to its slot; the other slots of the block keep their bytes. */
    method SyncInode(node: Inode)
      requires Valid() && Cached(node)
      modifies sb`disk, node`dirty
      ensures Valid() && Cached(node) && !node.dirty && SameData(old(sb.disk), sb.disk)
      ensures forall b ::
                0 <= b < DEVICE_BLOCKS && b != INODE_BLOCKS_START + InodeBlock(node.nr) ==>
                  sb.disk[b] == old(sb.disk)[b]
      ensures forall m: nat :: m < NR_INODES ==>
                DiskInode(sb.disk, m) == if m == node.nr then node.d else DiskInode(old(sb.disk), m)
    {
      hide InodeBlock, InodeOffset, DiskInode, WithSlot, DinodeFits, SuperBlock.Valid, Accounts;
      AccountsFit(ino, owner, node.nr);
      SlotFits(node.nr);
      if !node.dirty {
        return;
      }
      var b := INODE_BLOCKS_START + InodeBlock(node.nr);
      var block := WithSlot(sb.disk[b], node.nr, node.d);
      ghost var before, after := sb.disk, sb.disk[b := block];
      forall m: nat | m < NR_INODES
        ensures DiskInode(after, m) == if m == node.nr then node.d else DiskInode(before, m)
      {
        SlotWritten(before, node.nr, node.d, m);
      }
      sb.WriteBlock(b, block);
      node.dirty := false;
      assert sb.disk == after && before == old(sb.disk);
      forall m: nat | m < NR_INODES && (m in table ==> !table[m].dirty) ensures DiskInode(sb.disk, m) == ino[m] {
        assert m != node.nr ==> DiskInode(before, m) == ino[m];
      }
    }

    /** Drops a reference; the last one removes the inode from memory. As the
        source asserts, the inode must be clean. */
    method PutInode(node: Inode)
      requires Valid() && Cached(node) && !node.dirty
      modifies this`table, node`count
      ensures Valid() && node.count == old(node.count) - 1
      ensures table == if node.count == 0 then old(table) - {node.nr} else old(table)
    {
      hide DiskInode, DinodeFits, SuperBlock.Valid, Accounts;
      node.count := node.count - 1;
      if node.count == 0 {
        table := table - {node.nr};
      }
    }

    /** Assigns to fields of the inode and sets the dirty flag. */
    method Store(node: Inode, d: Dinode)
      requires Valid() && Cached(node)
      requires DinodeFits(d) && d.blockCount == node.d.blockCount
      modifies this`ino, node`d, node`dirty
      ensures Valid() && Cached(node) && node.d == d && node.dirty && ino == old(ino)[node.nr := d]
    {
      hide DiskInode, DinodeFits, SuperBlock.Valid, Accounts;
      AccountsStore(ino, owner, node.nr, d);
      FitsSized(d);
      assert forall n :: n in table && n != node.nr ==> table[n] != node;
      node.d := d;
      node.dirty := true;
      ino := ino[node.nr := d];
      assert Coherent();
    }

    /** write_blocks to a data block */
    method WriteDataBlock(b: nat, block: Block)
      requires Valid() && DATA_BLOCKS_START <= b < DEVICE_BLOCKS
      modifies sb`disk
      ensures Valid() && sb.disk == old(sb.disk)[b := block]
    {
      hide DiskInode, DinodeFits, SuperBlock.Valid, Accounts;
      DiskInodeFrame(sb.disk, sb.disk[b := block]);
      sb.WriteBlock(b, block);
    }

    /** testfs_get_inode_freemap */
    method TakeInodeNr() returns (ret: int)
      requires Valid()
      modifies sb, sb.inodeFreemap.v
      ensures Valid() && sb.used == old(sb.used)
      ensures forall b :: INODE_BLOCKS_START <= b < DEVICE_BLOCKS ==> sb.disk[b] == old(sb.disk)[b]
      ensures sb.Available() == old(sb.Available())
      ensures ret < 0 ==>
                ret == -ENOSPC && sb.live == old(sb.live) && forall i: nat :: i < NR_INODE_BITS ==> i in sb.live
      ensures ret >= 0 ==> ret < NR_INODE_BITS && ret !in old(sb.live) && sb.live == old(sb.live) + {ret}
      ensures ret >= 0 ==> forall i: nat :: i < ret ==> i in old(sb.live)
    {
      hide DiskInode, DinodeFits, SuperBlock.Valid, Accounts;
      ret := sb.GetInodeFreemap();
      DiskInodeFrame(old(sb.disk), sb.disk);
    }

    /** testfs_put_inode_freemap */
    method ReturnInodeNr(nr: nat)
      requires Valid() && nr in sb.live
      modifies sb, sb.inodeFreemap.v
      ensures Valid() && sb.used == old(sb.used)
      ensures forall b :: INODE_BLOCKS_START <= b < DEVICE_BLOCKS ==> sb.disk[b] == old(sb.disk)[b]
      ensures sb.Available() == old(sb.Available())
      ensures sb.live == old(sb.live) - {nr}
    {
      hide DiskInode, DinodeFits, SuperBlock.Valid, Accounts;
      sb.PutInodeFreemap(nr);
      DiskInodeFrame(old(sb.disk), sb.disk);
    }

    /** Takes a block from the freemap and charges it to the inode. */
    method AllocBlockFor(node: Inode) returns (ret: int)
      requires Valid() && Cached(node)
      modifies this`ino, this`owner, sb, sb.blockFreemap.v, node`d, node`dirty
      ensures sb.live == old(sb.live)
      ensures Valid() && Cached(node)
      ensures ret < 0 <==> old(sb.Available()) <= 0
      ensures ret < 0 ==> ret == -ENOSPC && sb.disk == old(sb.disk) && sb.sb == old(sb.sb) && owner == old(owner)
      ensures ret < 0 ==> ino == old(ino) && node.d == old(node.d) && node.dirty == old(node.dirty)
      ensures ret >= 0 ==>
                && DATA_BLOCKS_START <= ret < DEVICE_BLOCKS && ret !in old(owner)
                && owner == old(owner)[ret := Owner(node.nr, Loose)]
                && node.d == old(node.d).(blockCount := old(node.d).blockCount + 1) && node.dirty
                && ino == old(ino)[node.nr := node.d]
                && sb.Available() == old(sb.Available()) - 1
                && (forall b :: INODE_BLOCKS_START <= b < DEVICE_BLOCKS ==> sb.disk[b] == old(sb.disk)[b])
    {
      hide DiskInode, DinodeFits, SuperBlock.Valid, Accounts;
      ret := sb.AllocBlock();
      if ret >= 0 {
        DiskInodeFrame(old(sb.disk), sb.disk);
        AccountsCharge(ino, owner, ret, node.nr);
        owner := owner[ret := Owner(node.nr, Loose)];
        node.d := node.d.(blockCount := node.d.blockCount + 1);
        node.dirty := true;
        ino := ino[node.nr := node.d];
      }
    }

    /** Returns a block of the inode to the freemap; block 0 is "no block". */
    method FreeBlockFrom(node: Inode, b: int)
      requires Valid() && Cached(node)
      requires b != 0 ==> b in owner && owner[b].inode == node.nr
      modifies this`ino, this`owner, sb, sb.blockFreemap.v, node`d, node`dirty
      ensures sb.live == old(sb.live)
      ensures Valid() && Cached(node) && |sb.disk| == DEVICE_BLOCKS
      ensures b == 0 ==> sb.disk == old(sb.disk) && owner == old(owner) && ino == old(ino) && node.d == old(node.d)
      ensures b == 0 ==> node.dirty == old(node.dirty) && sb.sb == old(sb.sb)
      ensures b != 0 ==>
                && owner == old(owner) - {b}
                && node.d == old(node.d).(blockCount := old(node.d).blockCount - 1) && node.dirty
                && ino == old(ino)[node.nr := node.d]
                && sb.Available() == old(sb.Available()) + 1
                && (forall x :: INODE_BLOCKS_START <= x < DEVICE_BLOCKS ==>
                      sb.disk[x] == if x == b then ZERO_BLOCK else old(sb.disk)[x])
    {
      hide DiskInode, DinodeFits, SuperBlock.Valid, Accounts;
      if b == 0 {
        return;
      }
      DataNumber(ino, owner, b);
      sb.FreeBlock(b);
      DiskInodeFrame(old(sb.disk), sb.disk);
      AccountsReturn(ino, owner, b, node.nr);
      owner := owner - {b};
      node.d := node.d.(blockCount := node.d.blockCount - 1);
      node.dirty := true;
      ino := ino[node.nr := node.d];
      assert Coherent();
    }
  }
}
