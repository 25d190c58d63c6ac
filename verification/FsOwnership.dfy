/** The block map of testfs and who owns each data block, as pure functions of
    the device and the inode table. */
module FsOwnership {
  import opened FsLayout
  import opened FsCodec
  import opened Arith

  const I_NONE: int := 0
  const I_FILE: int := 1
  const I_DIR: int := 2

  /** struct dinode */
  datatype Dinode = Dinode(kind: int, direct: seq<int>, indirect: int, dindirect: int, blockCount: int, size: int)

  /** An unused inode: all fields zero. */
  function NoInode(): (d: Dinode)
    ensures |d.direct| == NR_DIRECT_BLOCKS && forall i :: 0 <= i < NR_DIRECT_BLOCKS ==> d.direct[i] == 0
  {
    Dinode(I_NONE, seq(NR_DIRECT_BLOCKS, _ => 0), 0, 0, 0, 0)
  }

  type Disk = seq<Block>

  /** A place that can hold a block number. Loose marks a block that is taken
      from the freemap but not yet stored anywhere. */
  datatype Slot =
    | Direct(i: nat)
    | Single
    | SingleEntry(i: nat)
    | Double
    | Page(p: nat)
    | PageEntry(p: nat, o: nat)
    | Loose

  predicate SlotOk(s: Slot) {
    match s
    case Direct(i) => i < NR_DIRECT_BLOCKS
    case SingleEntry(i) => i < NR_INDIRECT_BLOCKS
    case Page(p) => p < NR_INDIRECT_BLOCKS
    case PageEntry(p, o) => p < NR_INDIRECT_BLOCKS && o < NR_INDIRECT_BLOCKS
    case Loose => false
    case _ => true
  }

  predicate IsIndex(s: Slot) { s.Single? || s.Double? || s.Page? }
  predicate IsData(s: Slot) { s.Direct? || s.SingleEntry? || s.PageEntry? }

  // ---- logical blocks and slots ----

  function LogicalOf(s: Slot): int
    requires IsData(s)
  {
    match s
    case Direct(i) => i
    case SingleEntry(i) => NR_DIRECT_BLOCKS + i
    case PageEntry(p, o) => NR_DIRECT_BLOCKS + NR_INDIRECT_BLOCKS + (p * NR_INDIRECT_BLOCKS + o)
  }

  /** The slot that holds the number of logical block l. With `LogicalOfSlot`,
      the (page, offset) arithmetic is a bijection. */
  function SlotOf(l: nat): (s: Slot)
    requires l < NR_MAX_BLOCK
    ensures SlotOk(s) && IsData(s) && LogicalOf(s) == l
  {
    if l < NR_DIRECT_BLOCKS then Direct(l)
    else if l - NR_DIRECT_BLOCKS < NR_INDIRECT_BLOCKS then SingleEntry(l - NR_DIRECT_BLOCKS)
    else
      var r := l - NR_DIRECT_BLOCKS - NR_INDIRECT_BLOCKS;
      assert r < NR_INDIRECT_BLOCKS * NR_INDIRECT_BLOCKS by { assert Relations(SHAPE); }
      Split(NR_INDIRECT_BLOCKS, r, NR_INDIRECT_BLOCKS);
      PageEntry(r / NR_INDIRECT_BLOCKS, r % NR_INDIRECT_BLOCKS)
  }

  lemma LogicalOfSlot(s: Slot)
    requires SlotOk(s) && IsData(s)
    ensures 0 <= LogicalOf(s) < NR_MAX_BLOCK && SlotOf(LogicalOf(s)) == s
  {
    assert Relations(SHAPE);
    if s.PageEntry? {
      DivMod(NR_INDIRECT_BLOCKS, s.p, s.o);
      Below(NR_INDIRECT_BLOCKS, s.p, s.o, NR_INDIRECT_BLOCKS, 0);
    }
  }

  // ---- reading block numbers ----

  /** Entry i of index block b; block 0 stands for "no index block". */
  function Entry(disk: Disk, b: int, i: nat): int
    requires i < NR_INDIRECT_BLOCKS
  {
    if 0 < b < |disk| then GetInt(disk[b], i) else 0
  }

  function Ptr(disk: Disk, d: Dinode, s: Slot): int
    requires |d.direct| == NR_DIRECT_BLOCKS && SlotOk(s)
  {
    match s
    case Direct(i) => d.direct[i]
    case Single => d.indirect
    case SingleEntry(i) => Entry(disk, d.indirect, i)
    case Double => d.dindirect
    case Page(p) => Entry(disk, d.dindirect, p)
    case PageEntry(p, o) => Entry(disk, Entry(disk, d.dindirect, p), o)
  }

  // ---- ownership ----

  datatype Owner = Owner(inode: nat, slot: Slot)
  type Owners = map<int, Owner>

  /** The data blocks taken by inode n. */
  ghost function Blocks(owner: Owners, n: nat): set<int> {
    set b | b in owner && owner[b].inode == n
  }

  /** Every block number inode n stores is recorded, under the slot storing it. */
  ghost predicate Recorded(disk: Disk, d: Dinode, n: nat, owner: Owners)
    requires |d.direct| == NR_DIRECT_BLOCKS
  {
    forall s :: SlotOk(s) && Ptr(disk, d, s) != 0 ==>
      Ptr(disk, d, s) in owner && owner[Ptr(disk, d, s)] == Owner(n, s)
  }

  /** A recorded block is stored where the record says. */
  ghost predicate Stored(disk: Disk, d: Dinode, n: nat, owner: Owners)
    requires |d.direct| == NR_DIRECT_BLOCKS
  {
    forall b :: b in owner && owner[b].inode == n && owner[b].slot != Loose ==>
      SlotOk(owner[b].slot) && Ptr(disk, d, owner[b].slot) == b
  }

  /** Every inode has its direct slots. */
  ghost predicate Sized(ino: seq<Dinode>) {
    forall n :: 0 <= n < |ino| ==> |ino[n].direct| == NR_DIRECT_BLOCKS
  }

  ghost predicate Shaped(disk: Disk, ino: seq<Dinode>, owner: Owners) {
    && |disk| == DEVICE_BLOCKS && |ino| == NR_INODES
    && Sized(ino)
    && (forall b :: b in owner ==> DATA_BLOCKS_START <= b < |disk| && owner[b].inode < |ino|)
  }

  /** Data blocks that hold nothing are zero on the device. */
  ghost predicate FreeIsZero(disk: Disk, owner: Owners) {
    forall b :: DATA_BLOCKS_START <= b < |disk| && (b !in owner || owner[b].slot == Loose) ==> disk[b] == ZERO_BLOCK
  }

  ghost predicate Counted(ino: seq<Dinode>, owner: Owners) {
    forall n: nat :: n < |ino| ==> ino[n].blockCount == |Blocks(owner, n)|
  }

  /** The ownership invariant, for all inodes but `skip`. */
  ghost predicate FsckBut(disk: Disk, ino: seq<Dinode>, owner: Owners, skip: int) {
    && Shaped(disk, ino, owner)
    && FreeIsZero(disk, owner)
    && Counted(ino, owner)
    && forall n: nat :: n < |ino| && n != skip ==> Recorded(disk, ino[n], n, owner) && Stored(disk, ino[n], n, owner)
  }

  ghost predicate Fsck(disk: Disk, ino: seq<Dinode>, owner: Owners) {
    FsckBut(disk, ino, owner, -1)
  }

  /** Every block in use is stored in some slot: nothing is leaked. */
  ghost predicate Settled(owner: Owners) {
    forall b :: b in owner ==> owner[b].slot != Loose
  }

  ghost predicate NoNewLoose(owner: Owners, owner': Owners) {
    forall b :: b in owner' && owner'[b].slot == Loose ==> b in owner && owner[b].slot == Loose
  }

  // ---- frames ----

  /** The device agrees on the index blocks of inode n. */
  ghost predicate SameIndex(disk: Disk, disk': Disk, n: nat, owner: Owners) {
    && |disk'| == |disk|
    && forall b ::
         b in owner && owner[b].inode == n && IsIndex(owner[b].slot) && 0 <= b < |disk| ==> disk'[b] == disk[b]
  }

  /** Every block number inode n stores is a data block that no other inode owns. */
  ghost predicate Own(disk: Disk, d: Dinode, n: nat, owner: Owners)
    requires |d.direct| == NR_DIRECT_BLOCKS
  {
    forall s :: SlotOk(s) && Ptr(disk, d, s) != 0 ==>
      && DATA_BLOCKS_START <= Ptr(disk, d, s) < |disk|
      && (Ptr(disk, d, s) in owner ==> owner[Ptr(disk, d, s)].inode == n)
  }

  /** The ownership invariant for all inodes but `skip`, which may store the number of
      a free block but of no block of another inode. */
  ghost predicate FsckSave(disk: Disk, ino: seq<Dinode>, owner: Owners, skip: int) {
    FsckBut(disk, ino, owner, skip) && forall n: nat :: n < |ino| ==> Own(disk, ino[n], n, owner)
  }

  lemma FsckIsSave(disk: Disk, ino: seq<Dinode>, owner: Owners, skip: int)
    ensures Fsck(disk, ino, owner) ==> FsckSave(disk, ino, owner, skip)
    ensures FsckSave(disk, ino, owner, -1) ==> Fsck(disk, ino, owner)
  {
    hide Ptr;
    if Fsck(disk, ino, owner) {
      forall n: nat | n < |ino| ensures Own(disk, ino[n], n, owner) {
        assert Recorded(disk, ino[n], n, owner);
      }
    }
  }

  /** A change confined to blocks of other inodes moves no block number of this one. */
  lemma PtrOwnFrame(disk: Disk, disk': Disk, d: Dinode, n: nat, owner: Owners)
    requires |d.direct| == NR_DIRECT_BLOCKS && Own(disk, d, n, owner) && |disk'| == |disk|
    requires forall b :: DATA_BLOCKS_START <= b < |disk| && (b !in owner || owner[b].inode == n) ==> disk'[b] == disk[b]
    ensures forall s :: SlotOk(s) ==> Ptr(disk', d, s) == Ptr(disk, d, s)
  {
    hide GetInt;
    assert Ptr(disk, d, Single) == d.indirect && Ptr(disk, d, Double) == d.dindirect;
    forall s | SlotOk(s) ensures Ptr(disk', d, s) == Ptr(disk, d, s) {
      if s.PageEntry? {
        assert Ptr(disk, d, Page(s.p)) == Entry(disk, d.dindirect, s.p);
      }
    }
  }

  lemma PtrFrame(disk: Disk, disk': Disk, d: Dinode, n: nat, owner: Owners)
    requires |d.direct| == NR_DIRECT_BLOCKS && Recorded(disk, d, n, owner) && SameIndex(disk, disk', n, owner)
    ensures forall s :: SlotOk(s) ==> Ptr(disk', d, s) == Ptr(disk, d, s)
  {
    hide GetInt;
    assert Ptr(disk, d, Single) == d.indirect && Ptr(disk, d, Double) == d.dindirect;
    forall s | SlotOk(s) ensures Ptr(disk', d, s) == Ptr(disk, d, s) {
      if s.PageEntry? {
        assert Ptr(disk, d, Page(s.p)) == Entry(disk, d.dindirect, s.p);
      }
    }
  }

  // ---- one block number stored ----

  /** The slots of all inodes hold what they held, except that slot s of inode n
      now holds b. */
  ghost predicate PtrUpdated(disk: Disk, ino: seq<Dinode>, disk': Disk, ino': seq<Dinode>, n: nat, s: Slot, b: int)
  {
    && |ino'| == |ino| && |disk'| == |disk| && Sized(ino) && Sized(ino')
    && (forall m, t :: 0 <= m < |ino| && SlotOk(t) ==>
          Ptr(disk', ino'[m], t) == if m == n && t == s then b else Ptr(disk, ino[m], t))
  }

  lemma LinkKeepsFsck(disk: Disk, ino: seq<Dinode>, owner: Owners, disk': Disk, ino': seq<Dinode>, n: nat, s: Slot,
                      b: int)
    requires Fsck(disk, ino, owner) && n < |ino| && SlotOk(s)
    requires b in owner && owner[b] == Owner(n, Loose) && Ptr(disk, ino[n], s) == 0
    requires PtrUpdated(disk, ino, disk', ino', n, s, b)
    requires FreeIsZero(disk', owner[b := Owner(n, s)])
    requires forall m :: 0 <= m < |ino| ==> ino'[m].blockCount == ino[m].blockCount
    ensures Fsck(disk', ino', owner[b := Owner(n, s)])
  {
    hide Ptr;
    var owner' := owner[b := Owner(n, s)];
    forall m: nat | m < |ino| ensures ino'[m].blockCount == |Blocks(owner', m)| {
      assert Blocks(owner', m) == Blocks(owner, m);
    }
    forall m: nat | m < |ino|
      ensures Recorded(disk', ino'[m], m, owner') && Stored(disk', ino'[m], m, owner')
    {
      assert Recorded(disk, ino[m], m, owner) && Stored(disk, ino[m], m, owner);
    }
  }

  /** The inode with a block number stored in one of its own fields. */
  function WithField(d: Dinode, s: Slot, b: int): Dinode
    requires SlotOk(s) && |d.direct| == NR_DIRECT_BLOCKS && (s.Direct? || s.Single? || s.Double?)
  {
    match s
    case Direct(i) => d.(direct := d.direct[i := b])
    case Single => d.(indirect := b)
    case Double => d.(dindirect := b)
  }

  lemma LinkField(disk: Disk, ino: seq<Dinode>, owner: Owners, n: nat, s: Slot, b: int)
    requires Fsck(disk, ino, owner) && n < |ino| && SlotOk(s) && (s.Direct? || s.Single? || s.Double?)
    requires b in owner && owner[b] == Owner(n, Loose) && Ptr(disk, ino[n], s) == 0
    ensures PtrUpdated(disk, ino, disk, ino[n := WithField(ino[n], s, b)], n, s, b)
    ensures Fsck(disk, ino[n := WithField(ino[n], s, b)], owner[b := Owner(n, s)])
  {
    var ino' := ino[n := WithField(ino[n], s, b)];
    assert disk[b] == ZERO_BLOCK;
    forall i: nat | i < NR_INDIRECT_BLOCKS ensures Entry(disk, b, i) == 0 { GetIntZeros(BLOCK_SIZE, i); }
    hide GetInt;
    assert PtrUpdated(disk, ino, disk, ino', n, s, b);
    LinkKeepsFsck(disk, ino, owner, disk, ino', n, s, b);
  }

  /** The slot holding the index block that slot s is an entry of, and the entry. */
  function Parent(s: Slot): Slot
    requires s.SingleEntry? || s.Page? || s.PageEntry?
  {
    match s
    case SingleEntry(_) => Single
    case Page(_) => Double
    case PageEntry(p, _) => Page(p)
  }

  function EntryNr(s: Slot): nat
    requires s.SingleEntry? || s.Page? || s.PageEntry?
  {
    match s
    case SingleEntry(i) => i
    case Page(p) => p
    case PageEntry(_, o) => o
  }

  lemma LinkEntry(disk: Disk, ino: seq<Dinode>, owner: Owners, n: nat, s: Slot, b: int, x: int, disk': Disk)
    requires Fsck(disk, ino, owner) && n < |ino| && SlotOk(s) && (s.SingleEntry? || s.Page? || s.PageEntry?)
    requires b in owner && owner[b] == Owner(n, Loose) && Ptr(disk, ino[n], s) == 0
    requires x == Ptr(disk, ino[n], Parent(s)) && x != 0
    requires DATA_BLOCKS_START <= x < |disk| && b < 0x8000_0000
    requires disk' == disk[x := SetInt(disk[x], EntryNr(s), b)]
    ensures PtrUpdated(disk, ino, disk', ino, n, s, b)
    ensures Fsck(disk', ino, owner[b := Owner(n, s)])
  {
    var d := ino[n];
    assert x in owner && owner[x] == Owner(n, Parent(s)) by { assert Recorded(disk, d, n, owner); }
    assert disk[b] == ZERO_BLOCK;
    forall i: nat | i < NR_INDIRECT_BLOCKS
      ensures Entry(disk, b, i) == 0 && Entry(disk', x, i) == if i == EntryNr(s) then b else Entry(disk, x, i)
    {
      GetIntZeros(BLOCK_SIZE, i);
      GetSetInt(disk[x], EntryNr(s), b, i);
    }
    hide GetInt, SetInt;
    forall m: nat | m < |ino| && m != n
      ensures forall t :: SlotOk(t) ==> Ptr(disk', ino[m], t) == Ptr(disk, ino[m], t)
    {
      PtrFrame(disk, disk', ino[m], m, owner);
    }
    forall t | SlotOk(t) ensures Ptr(disk', d, t) == if t == s then b else Ptr(disk, d, t) {
      EntryPoint(disk, d, n, owner, s, b, x, disk', t);
    }
    LinkKeepsFsck(disk, ino, owner, disk', ino, n, s, b);
  }

  lemma EntryPoint(disk: Disk, d: Dinode, n: nat, owner: Owners, s: Slot, b: int, x: int, disk': Disk, t: Slot)
    requires |d.direct| == NR_DIRECT_BLOCKS && Recorded(disk, d, n, owner)
    requires SlotOk(s) && (s.SingleEntry? || s.Page? || s.PageEntry?) && Ptr(disk, d, s) == 0
    requires x == Ptr(disk, d, Parent(s)) && 0 < x < |disk| && 0 < b < |disk| && b != x
    requires |disk'| == |disk| && forall y :: 0 <= y < |disk| && y != x ==> disk'[y] == disk[y]
    requires forall i: nat :: i < NR_INDIRECT_BLOCKS ==>
               Entry(disk, b, i) == 0 && Entry(disk', x, i) == if i == EntryNr(s) then b else Entry(disk, x, i)
    requires SlotOk(t)
    ensures Ptr(disk', d, t) == if t == s then b else Ptr(disk, d, t)
    decreases t.PageEntry?
  {
    hide GetInt;
    assert x in owner && owner[x] == Owner(n, Parent(s));
    match t
    case SingleEntry(_) =>
      assert Ptr(disk, d, Single) == d.indirect;
    case Page(_) =>
      assert Ptr(disk, d, Double) == d.dindirect;
    case PageEntry(p, o) =>
      assert Ptr(disk, d, Double) == d.dindirect;
      assert Ptr(disk, d, Page(p)) == Entry(disk, d.dindirect, p);
      EntryPoint(disk, d, n, owner, s, b, x, disk', Page(p));
      var y, y' := Ptr(disk, d, Page(p)), Ptr(disk', d, Page(p));
      assert y' == Entry(disk', d.dindirect, p);
      assert Ptr(disk, d, t) == Entry(disk, y, o) && Ptr(disk', d, t) == Entry(disk', y', o);
      if s == Page(p) {
        assert Entry(disk', b, o) == Entry(disk, b, o) == 0;
      } else if y != x {
        assert Entry(disk', y, o) == Entry(disk, y, o);
      }
    case _ =>
  }

  // ---- taking and returning blocks ----

  /** Two inodes that store the same block numbers. */
  predicate SamePointers(d: Dinode, d': Dinode) {
    d'.direct == d.direct && d'.indirect == d.indirect && d'.dindirect == d.dindirect
  }

  /** A change of the device outside the data region, and of inode fields other
      than block numbers, moves no block number. */
  lemma SameDataSamePtr(disk: Disk, disk': Disk, d: Dinode, d': Dinode, n: nat, owner: Owners)
    requires |d.direct| == NR_DIRECT_BLOCKS && Recorded(disk, d, n, owner)
    requires forall b :: b in owner ==> DATA_BLOCKS_START <= b < |disk|
    requires SameData(disk, disk') && SamePointers(d, d')
    ensures forall s :: SlotOk(s) ==> Ptr(disk', d', s) == Ptr(disk, d, s)
  {
    PtrFrame(disk, disk', d, n, owner);
    hide GetInt;
    assert forall s :: SlotOk(s) ==> Ptr(disk', d', s) == Ptr(disk', d, s);
  }

  lemma BlocksAdd(owner: Owners, b: int, n: nat, s: Slot, m: nat)
    requires b !in owner
    ensures |Blocks(owner[b := Owner(n, s)], m)| == |Blocks(owner, m)| + if m == n then 1 else 0
  {
    assert Blocks(owner[b := Owner(n, s)], m) == if m == n then Blocks(owner, m) + {b} else Blocks(owner, m);
  }

  /** A block fresh from the freemap, charged to inode n. */
  lemma TakeKeepsFsck(disk: Disk, ino: seq<Dinode>, owner: Owners, disk': Disk, d': Dinode, n: nat, b: int)
    requires Fsck(disk, ino, owner) && n < |ino|
    requires DATA_BLOCKS_START <= b < |disk| && b !in owner
    requires SameData(disk, disk')
    requires SamePointers(ino[n], d') && d'.blockCount == ino[n].blockCount + 1
    ensures Fsck(disk', ino[n := d'], owner[b := Owner(n, Loose)])
    ensures forall m, t :: 0 <= m < |ino| && SlotOk(t) ==> Ptr(disk', ino[n := d'][m], t) == Ptr(disk, ino[m], t)
  {
    var ino', owner' := ino[n := d'], owner[b := Owner(n, Loose)];
    hide Ptr;
    forall m: nat | m < |ino| ensures ino'[m].blockCount == |Blocks(owner', m)| { BlocksAdd(owner, b, n, Loose, m); }
    forall m: nat | m < |ino| ensures forall t :: SlotOk(t) ==> Ptr(disk', ino'[m], t) == Ptr(disk, ino[m], t) {
      SameDataSamePtr(disk, disk', ino[m], ino'[m], m, owner);
    }
    forall m: nat | m < |ino|
      ensures Recorded(disk', ino'[m], m, owner') && Stored(disk', ino'[m], m, owner')
    {
      assert Recorded(disk, ino[m], m, owner) && Stored(disk, ino[m], m, owner);
    }
  }

  /** The devices agree on the data region. */
  ghost predicate SameData(disk: Disk, disk': Disk) {
    |disk'| == |disk| && forall b :: DATA_BLOCKS_START <= b < |disk| ==> disk'[b] == disk[b]
  }

  /** A loose block returned to the freemap. */
  lemma DropKeepsFsck(disk: Disk, ino: seq<Dinode>, owner: Owners, disk': Disk, d': Dinode, n: nat, b: int)
    requires Fsck(disk, ino, owner) && n < |ino|
    requires b in owner && owner[b] == Owner(n, Loose)
    requires SameData(disk, disk')
    requires SamePointers(ino[n], d') && d'.blockCount == ino[n].blockCount - 1
    ensures Fsck(disk', ino[n := d'], owner - {b})
    ensures forall m, t :: 0 <= m < |ino| && SlotOk(t) ==> Ptr(disk', ino[n := d'][m], t) == Ptr(disk, ino[m], t)
  {
    var ino', owner' := ino[n := d'], owner - {b};
    hide Ptr;
    assert owner == owner'[b := Owner(n, Loose)];
    forall m: nat | m < |ino| ensures ino'[m].blockCount == |Blocks(owner', m)| { BlocksAdd(owner', b, n, Loose, m); }
    forall m: nat | m < |ino| ensures forall t :: SlotOk(t) ==> Ptr(disk', ino'[m], t) == Ptr(disk, ino[m], t) {
      SameDataSamePtr(disk, disk', ino[m], ino'[m], m, owner);
    }
    forall m: nat | m < |ino|
      ensures Recorded(disk', ino'[m], m, owner') && Stored(disk', ino'[m], m, owner')
    {
      assert Recorded(disk, ino[m], m, owner) && Stored(disk, ino[m], m, owner);
    }
  }

  /** An index block that holds no block number, cleared from its field and returned. */
  lemma UnlinkKeepsFsck(disk: Disk, ino: seq<Dinode>, owner: Owners, disk': Disk, d': Dinode, n: nat, s: Slot)
    requires Fsck(disk, ino, owner) && n < |ino| && (s.Single? || s.Double?)
    requires Ptr(disk, ino[n], s) != 0 && Ptr(disk, ino[n], s) < |disk| && disk[Ptr(disk, ino[n], s)] == ZERO_BLOCK
    requires SameData(disk, disk')
    requires SamePointers(WithField(ino[n], s, 0), d') && d'.blockCount == ino[n].blockCount - 1
    ensures Fsck(disk', ino[n := d'], owner - {Ptr(disk, ino[n], s)})
    ensures forall m, t :: 0 <= m < |ino| && SlotOk(t) && (m != n || IsData(t)) ==>
              Ptr(disk', ino[n := d'][m], t) == Ptr(disk, ino[m], t)
  {
    var b := Ptr(disk, ino[n], s);
    assert Recorded(disk, ino[n], n, owner);
    assert b in owner && owner[b] == Owner(n, s);
    forall i: nat | i < NR_INDIRECT_BLOCKS ensures Entry(disk, b, i) == 0 { GetIntZeros(BLOCK_SIZE, i); }
    hide GetInt;
    var cleared := WithField(ino[n], s, 0);
    var ino1, owner1 := ino[n := cleared], owner[b := Owner(n, Loose)];
    assert PtrUpdated(disk, ino, disk, ino1, n, s, 0);
    ClearedKeepsFsck(disk, ino, owner, ino1, n, s, b);
    DropKeepsFsck(disk, ino1, owner1, disk', d', n, b);
    assert owner1 - {b} == owner - {b} && ino1[n := d'] == ino[n := d'];
  }

  lemma ClearedKeepsFsck(disk: Disk, ino: seq<Dinode>, owner: Owners, ino': seq<Dinode>, n: nat, s: Slot, b: int)
    requires Fsck(disk, ino, owner) && n < |ino| && SlotOk(s) && s != Loose
    requires b in owner && owner[b] == Owner(n, s) && disk[b] == ZERO_BLOCK
    requires PtrUpdated(disk, ino, disk, ino', n, s, 0)
    requires forall m :: 0 <= m < |ino| ==> ino'[m].blockCount == ino[m].blockCount
    ensures Fsck(disk, ino', owner[b := Owner(n, Loose)])
  {
    hide Ptr;
    var owner' := owner[b := Owner(n, Loose)];
    forall m: nat | m < |ino| ensures ino'[m].blockCount == |Blocks(owner', m)| {
      assert Blocks(owner', m) == Blocks(owner, m);
    }
    forall m: nat | m < |ino|
      ensures Recorded(disk, ino'[m], m, owner') && Stored(disk, ino'[m], m, owner')
    {
      assert Recorded(disk, ino[m], m, owner) && Stored(disk, ino[m], m, owner);
    }
  }

  // ---- what a file holds ----

  /** Block l of the file, zero where nothing is mapped. */
  function BlockView(disk: Disk, d: Dinode, l: nat): Block
    requires |d.direct| == NR_DIRECT_BLOCKS && l < NR_MAX_BLOCK
  {
    var b := Ptr(disk, d, SlotOf(l));
    if 0 < b < |disk| then disk[b] else ZERO_BLOCK
  }

  /** The block of position p and the offset in it, and the position they came from. */
  function BlockNr(p: nat): nat {
    Split(BLOCK_SIZE, p, 0);
    p / BLOCK_SIZE
  }

  function BlockIx(p: nat): (ix: nat)
    ensures ix < BLOCK_SIZE
  {
    Split(BLOCK_SIZE, p, 0);
    p % BLOCK_SIZE
  }

  function PositionOf(nr: nat, ix: nat): nat { nr * BLOCK_SIZE + ix }

  /** Byte p of the file. */
  function ByteAt(disk: Disk, d: Dinode, p: nat): byte
    requires |d.direct| == NR_DIRECT_BLOCKS && BlockNr(p) < NR_MAX_BLOCK
  {
    BlockView(disk, d, BlockNr(p))[BlockIx(p)]
  }

  /** Every file holds, block by block, what it held. */
  ghost predicate SameViews(disk: Disk, ino: seq<Dinode>, disk': Disk, ino': seq<Dinode>)
  {
    && |ino'| == |ino| && Sized(ino) && Sized(ino')
    && forall m, l :: 0 <= m < |ino| && 0 <= l < NR_MAX_BLOCK ==>
         BlockView(disk', ino'[m], l) == BlockView(disk, ino[m], l)
  }

  /** No file changes its content; the data slots of inode n and all slots of the others
      hold what they held, except that data slot s of inode n, if s is one, now holds b. */
  ghost predicate DataMap(disk: Disk, ino: seq<Dinode>, disk': Disk, ino': seq<Dinode>, n: nat, s: Slot, b: int)
  {
    && SameViews(disk, ino, disk', ino')
    && forall m, t :: 0 <= m < |ino| && SlotOk(t) && (m != n || IsData(t)) ==>
         Ptr(disk', ino'[m], t) == if m == n && t == s then b else Ptr(disk, ino[m], t)
  }

  /** Two steps, the first of which stores no data block number. */
  lemma DataMapThen(disk: Disk, ino: seq<Dinode>, disk1: Disk, ino1: seq<Dinode>, disk2: Disk, ino2: seq<Dinode>,
                    n: nat, s: Slot, b: int)
    requires DataMap(disk, ino, disk1, ino1, n, Loose, 0) && DataMap(disk1, ino1, disk2, ino2, n, s, b)
    ensures DataMap(disk, ino, disk2, ino2, n, s, b)
  {
    hide Ptr, BlockView;
  }

  lemma DataMapLoose(disk: Disk, ino: seq<Dinode>, disk': Disk, ino': seq<Dinode>, n: nat, a: int, b: int)
    requires DataMap(disk, ino, disk', ino', n, Loose, a)
    ensures DataMap(disk, ino, disk', ino', n, Loose, b)
  {
    hide Ptr, BlockView;
  }

  /** Storing the number of a zero block in an empty slot changes no file. */
  lemma LinkDataMap(disk: Disk, ino: seq<Dinode>, owner: Owners, disk': Disk, ino': seq<Dinode>, n: nat, s: Slot,
                    b: int)
    requires Fsck(disk, ino, owner) && n < |ino| && SlotOk(s)
    requires PtrUpdated(disk, ino, disk', ino', n, s, b)
    requires 0 < b < |disk| && disk'[b] == ZERO_BLOCK && Ptr(disk, ino[n], s) == 0
    requires forall x :: x in owner && IsData(owner[x].slot) && 0 <= x < |disk| ==> disk'[x] == disk[x]
    ensures DataMap(disk, ino, disk', ino', n, s, b)
  {
    hide Ptr, SlotOf;
    forall m, l | 0 <= m < |ino| && 0 <= l < NR_MAX_BLOCK
      ensures BlockView(disk', ino'[m], l) == BlockView(disk, ino[m], l)
    {
      assert Recorded(disk, ino[m], m, owner);
      var t := SlotOf(l);
      assert Ptr(disk', ino'[m], t) == if m == n && t == s then b else Ptr(disk, ino[m], t);
    }
  }

  /** A change that moves no data block number and rewrites no data block changes no file. */
  lemma UnmovedDataMap(disk: Disk, ino: seq<Dinode>, disk': Disk, ino': seq<Dinode>, owner: Owners, n: nat)
    requires Fsck(disk, ino, owner) && n < |ino| && SameData(disk, disk') && |ino'| == |ino|
    requires Sized(ino')
    requires forall m, t :: 0 <= m < |ino| && SlotOk(t) && (m != n || IsData(t)) ==>
               Ptr(disk', ino'[m], t) == Ptr(disk, ino[m], t)
    ensures DataMap(disk, ino, disk', ino', n, Loose, 0)
  {
    hide Ptr, SlotOf;
    forall m, l | 0 <= m < |ino| && 0 <= l < NR_MAX_BLOCK
      ensures BlockView(disk', ino'[m], l) == BlockView(disk, ino[m], l)
    {
      assert Recorded(disk, ino[m], m, owner);
      var t := SlotOf(l);
      assert Ptr(disk', ino'[m], t) == Ptr(disk, ino[m], t);
    }
  }

  /** Writing a data block moves no block number and changes exactly one block
      of one file. */
  lemma DataWrite(disk: Disk, ino: seq<Dinode>, owner: Owners, n: nat, l: nat, block: Block)
    requires Fsck(disk, ino, owner) && n < |ino| && l < NR_MAX_BLOCK
    requires Ptr(disk, ino[n], SlotOf(l)) != 0
    ensures var b := Ptr(disk, ino[n], SlotOf(l));
            && DATA_BLOCKS_START <= b < |disk|
            && Fsck(disk[b := block], ino, owner)
            && (forall m, t :: 0 <= m < |ino| && SlotOk(t) ==> Ptr(disk[b := block], ino[m], t) == Ptr(disk, ino[m], t))
            && (forall m, k :: 0 <= m < |ino| && 0 <= k < NR_MAX_BLOCK ==>
                  BlockView(disk[b := block], ino[m], k) ==
                    if m == n && k == l then block else BlockView(disk, ino[m], k))
  {
    var s := SlotOf(l);
    var b := Ptr(disk, ino[n], s);
    assert b in owner && owner[b] == Owner(n, s) by { assert Recorded(disk, ino[n], n, owner); }
    var disk' := disk[b := block];
    forall m: nat | m < |ino| ensures forall t :: SlotOk(t) ==> Ptr(disk', ino[m], t) == Ptr(disk, ino[m], t) {
      PtrFrame(disk, disk', ino[m], m, owner);
    }
    hide Ptr, SlotOf;
    forall m: nat | m < |ino|
      ensures Recorded(disk', ino[m], m, owner) && Stored(disk', ino[m], m, owner)
    {
      assert Recorded(disk, ino[m], m, owner) && Stored(disk, ino[m], m, owner);
    }
    forall m, k | 0 <= m < |ino| && 0 <= k < NR_MAX_BLOCK
      ensures BlockView(disk', ino[m], k) == if m == n && k == l then block else BlockView(disk, ino[m], k)
    {
      assert Recorded(disk, ino[m], m, owner);
      assert LogicalOf(SlotOf(k)) == k && LogicalOf(s) == l;
      assert Ptr(disk', ino[m], SlotOf(k)) == Ptr(disk, ino[m], SlotOf(k));
    }
  }
}
