/** fs/super.c, fs/mktestfs.c and the ends of fs/testfs.c: making, closing and reopening
    a file system. */
module FsMount {
  import opened FsLayout
  import opened FsCodec
  import opened FsBitmap
  import opened FsOwnership
  import opened FsSuper
  import opened FsInode
  import opened FsFiles
  import opened FsDirLog
  import opened FsDirectory
  import opened FsEntries
  import opened FsOrder
  import opened FsCommands
  import opened FsShell
  import T = FsTree

  // ---- mktestfs ----

  function NewSuper(maxFsBlocks: nat): DSuper {
    DSuper(INODE_FREEMAP_START, BLOCK_FREEMAP_START, INODE_BLOCKS_START, DATA_BLOCKS_START, 0, 0, maxFsBlocks)
  }

  lemma NewSuperFits(maxFsBlocks: nat)
    requires maxFsBlocks < 0x1_0000_0000_0000_0000
    ensures SuperFits(NewSuper(maxFsBlocks))
  {
    DeviceIs32Bit();
  }

  /** zero_blocks */
  method ZeroBlocks(image: Disk, start: nat, nr: nat) returns (zeroed: Disk)
    requires start + nr <= |image|
    ensures |zeroed| == |image|
    ensures forall b :: 0 <= b < |image| ==> zeroed[b] == if start <= b < start + nr then ZERO_BLOCK else image[b]
  {
    zeroed := image;
    for i := 0 to nr
      invariant |zeroed| == |image|
      invariant forall b :: 0 <= b < |image| ==> zeroed[b] == if start <= b < start + i then ZERO_BLOCK else image[b]
    {
      zeroed := zeroed[start + i := ZERO_BLOCK];
    }
  }

  /** The super block, empty freemaps and an empty inode table, on a device whose data
      region is zero. */
  method MakeImage(blank: Disk, maxFsBlocks: nat) returns (image: Disk)
    requires |blank| == DEVICE_BLOCKS && forall b :: DATA_BLOCKS_START <= b < |blank| ==> blank[b] == ZERO_BLOCK
    requires maxFsBlocks < 0x1_0000_0000_0000_0000
    ensures && |image| == DEVICE_BLOCKS && SuperFits(NewSuper(maxFsBlocks))
            && image[0] == EncodeSuper(NewSuper(maxFsBlocks))
    ensures forall b :: 1 <= b < |image| ==> image[b] == ZERO_BLOCK
  {
    hide EncodeSuper;
    NewSuperFits(maxFsBlocks);
    var sb := NewSuper(maxFsBlocks);
    image := blank[0 := EncodeSuper(sb)];
    image := ZeroBlocks(image, sb.inodeFreemapStart, INODE_FREEMAP_SIZE);
    image := ZeroBlocks(image, sb.blockFreemapStart, BLOCK_FREEMAP_SIZE);
    image := ZeroBlocks(image, sb.inodeBlocksStart, NR_INODE_BLOCKS);
  }

  /** A bitmap of n words without a bit set. */
  function NoBits(n: nat): seq<bv8> { seq(n, _ => 0) }

  lemma ZeroMirrored(image: Disk, start: nat, count: nat)
    requires start + count <= |image| && forall b :: start <= b < start + count ==> image[b] == ZERO_BLOCK
    ensures Mirrored(image, start, count, Raw(NoBits(Span(count))))
  {
    var v := Raw(NoBits(Span(count)));
    forall nr: nat | nr < count ensures image[start + nr] == Chunk(v, nr) {
      SpanBelow(nr, count);
      hide Span;
      assert Chunk(v, nr) == ZERO_BLOCK;
    }
  }

  lemma NoBitsMarked(n: nat, m: nat)
    requires m <= BITS_PER_WORD * n
    ensures SetBits(NoBits(n), m) == {}
  {
    forall i: nat | i < m ensures !BitAt(NoBits(n), i) { ZeroBits(i % BITS_PER_WORD); }
  }

  lemma EmptySlot(image: Disk, n: nat)
    requires |image| == DEVICE_BLOCKS && (forall b :: 1 <= b < |image| ==> image[b] == ZERO_BLOCK) && n < NR_INODES
    ensures DiskInode(image, n) == NoInode()
  {
    SlotFits(n);
    hide InodeBlock, InodeOffset;
    assert SlotBytes(image, n) == Zeros(DINODE_SIZE);
    forall i: nat | 4 * i + 4 <= DINODE_SIZE ensures GetInt(Zeros(DINODE_SIZE), i) == 0 { GetIntZeros(DINODE_SIZE, i); }
    LeZeros(8);
    hide GetInt, LeNat;
    var b := Zeros(DINODE_SIZE);
    assert b[DINODE_SIZE - 8..] == Zeros(8);
    assert DecodeDinode(b).direct == NoInode().direct;
  }

  /** testfs_init_super_block on a new device. */
  method MountNew(image: Disk, maxFsBlocks: nat) returns (sb: SuperBlock)
    requires && |image| == DEVICE_BLOCKS && SuperFits(NewSuper(maxFsBlocks))
             && image[0] == EncodeSuper(NewSuper(maxFsBlocks))
    requires forall b :: 1 <= b < |image| ==> image[b] == ZERO_BLOCK
    ensures fresh(sb) && fresh(sb.inodeFreemap.v) && fresh(sb.blockFreemap.v)
    ensures sb.Valid() && sb.disk == image && sb.used == {} && sb.live == {}
    ensures sb.Available() == if maxFsBlocks < NR_DATA_BLOCKS then maxFsBlocks else NR_DATA_BLOCKS
  {
    hide EncodeSuper, DecodeSuper, Mirrored, SetBits, BitAt, Span;
    SuperRoundTrip(NewSuper(maxFsBlocks));
    ZeroMirrored(image, INODE_FREEMAP_START, INODE_FREEMAP_SIZE);
    ZeroMirrored(image, BLOCK_FREEMAP_START, BLOCK_FREEMAP_SIZE);
    ghost var i, b := NoBits(Span(INODE_FREEMAP_SIZE)), NoBits(Span(BLOCK_FREEMAP_SIZE));
    FreemapSizes(INODE_FREEMAP_SIZE);
    FreemapSizes(BLOCK_FREEMAP_SIZE);
    NoBitsMarked(Span(INODE_FREEMAP_SIZE), NR_INODE_BITS);
    NoBitsMarked(Span(BLOCK_FREEMAP_SIZE), NR_DATA_BLOCKS);
    sb := new SuperBlock.Mount(image, i, b);
    assert sb.inodeFreemap.Marked() == {} && sb.blockFreemap.Marked() == {};
    assert DataBlocks({}) == {};
  }

  /** A device with an empty inode table has no files, and they are in order. */
  lemma EmptyInOrder(image: Disk, ino: seq<Dinode>)
    requires |image| == DEVICE_BLOCKS && forall b :: 1 <= b < |image| ==> image[b] == ZERO_BLOCK
    requires |ino| == NR_INODES && forall n: nat :: n < NR_INODES ==> ino[n] == NoInode()
    ensures FsOwnership.Fsck(image, ino, map[]) && Settled(map[]) && Inodes(image, ino, {}, {})
  {
    EmptySize();
    forall n: nat | n < |ino| ensures Recorded(image, ino[n], n, map[]) && ino[n].blockCount == |Blocks(map[], n)| {
      assert Blocks(map[], n) == {};
      assert forall s :: SlotOk(s) ==> Ptr(image, NoInode(), s) == 0 by { hide GetInt; }
    }
  }

  /** mktestfs: a new file system holds the root directory alone, which takes one block. It
      fails exactly if the limit on its size is zero. */
  method MakeFs(blank: Disk, maxFsBlocks: nat) returns (ret: int, t: InodeTable)
    requires |blank| == DEVICE_BLOCKS && forall b :: DATA_BLOCKS_START <= b < |blank| ==> blank[b] == ZERO_BLOCK
    requires maxFsBlocks < 0x1_0000_0000_0000_0000
    ensures ret == if 0 < maxFsBlocks then 0 else -ENOSPC
    ensures fresh(t) && fresh(t.sb) && fresh(t.sb.inodeFreemap.v) && fresh(t.sb.blockFreemap.v)
    ensures t.Valid() && t.table == map[]
    ensures ret == 0 ==>
              && InOrder(t.sb.disk, t.ino, t.owner, t.sb.live, {}, map[0 := NewDir(0, 0)], T.Shape(map[], map[0 := 0]))
              && t.sb.Available() == (if maxFsBlocks < NR_DATA_BLOCKS then maxFsBlocks else NR_DATA_BLOCKS) - 1
  {
    hide EncodeSuper, SuperBlock.Valid, InodeTable.Coherent, DiskInode, FsckBut, NoInode, Inodes, Settled, DinodeFits,
         HasLog, Kept, T.Tree, LowestFree, SuperBlock.Available;
    var image := MakeImage(blank, maxFsBlocks);
    var sb := MountNew(image, maxFsBlocks);
    forall n: nat | n < NR_INODES ensures DiskInode(image, n) == NoInode() { EmptySlot(image, n); }
    NoInodeFits(0);
    EmptySize();
    NoneOwnedAtFirst();
    t := new InodeTable(sb, map[]);
    EmptyInOrder(image, t.ino);
    ghost var nr;
    EmptyTable();
    ret, nr := CreateFileOrDir(t, null, I_DIR, [], [], {});
    if ret == 0 {
      RootInOrder(t.sb.disk, t.ino, t.owner, t.sb.live, nr);
    }
  }

  lemma EmptyTable()
    ensures !TableFull({})
  {
    var none: set<nat> := {};
    var first: nat := 0;
    assert first !in none && first < NR_INODES;
  }

  lemma NoneOwnedAtFirst()
    ensures forall n: nat :: Blocks(map[], n) == {}
  {
    forall n: nat ensures Blocks(map[], n) == {} {}
  }

  lemma RootInOrder(disk: Disk, ino: seq<Dinode>, owner: Owners, live: set<nat>, nr: nat)
    requires FsOwnership.Fsck(disk, ino, owner) && Settled(owner) && Inodes(disk, ino, live, {})
    requires && LowestFree({}, nr) && live == {} + {nr} && nr < |ino| && ino[nr].kind == I_DIR
             && HasLog(disk, ino, nr, NewDir(nr, nr))
    ensures InOrder(disk, ino, owner, live, {}, map[0 := NewDir(0, 0)], T.Shape(map[], map[0 := 0]))
  {
    hide FsckBut, Settled, Inodes, HasLog, EncodeLog;
    var none: set<nat> := {};
    assert nr == 0 || 0 in none;
    NewDirLogs(0, 0);
    NewDirNames(0, 0);
    hide Unique, Fits, NewDir;
    T.RootTree();
    assert Meaning(map[0 := NewDir(0, 0)]) == map[0 := T.NewNames(0, 0)];
  }

  // ---- closing and reopening ----

  /** No inode in memory has unsaved changes: the device holds every inode. */
  lemma SavedOnDevice(t: InodeTable)
    requires t.Valid() && forall n :: n in t.table ==> !t.table[n].dirty
    ensures |t.sb.disk| == DEVICE_BLOCKS && |t.ino| == NR_INODES
    ensures forall n: nat :: n < NR_INODES ==> DiskInode(t.sb.disk, n) == t.ino[n] && DinodeFits(t.ino[n])
  {
    hide SuperBlock.Valid, DiskInode, DinodeFits;
  }

  lemma OwnersCount(t: InodeTable)
    requires t.Valid()
    ensures forall n: nat :: n < |t.ino| ==> t.ino[n].blockCount == |Blocks(t.owner, n)|
    ensures forall b :: b in t.owner ==> DATA_BLOCKS_START <= b < DEVICE_BLOCKS && t.owner[b].inode < NR_INODES
    ensures t.sb.Valid() && t.sb.used == t.owner.Keys && |t.ino| == NR_INODES
  {
    hide SuperBlock.Valid, DiskInode, DinodeFits, InodeTable.Coherent, Blocks;
  }

  /** The end of main and the start of another: reading the device again gives the same
      state, from the counters to the tree, with the root as current directory. The current
      directory must have no unsaved changes, as main asserts when it puts it back. */
  method Reopen(shell: Shell) returns (again: Shell)
    requires shell.Inv() && !shell.cur.dirty
    modifies shell.t`table, shell.t.sb`disk, shell.cur`count
    ensures fresh(again) && again.Inv() && 0 < |old(shell.t.ino)|
    ensures again.Now() == old(shell.Now()).(nr := 0, d := old(shell.t.ino)[0])
  {
    hide SuperBlock.Valid, InodeTable.Valid, InOrder, DiskInode, DinodeFits, Blocks;
    var t := shell.t;
    SavedOnDevice(t);
    StillCached(t, shell.cur);
    t.PutInode(shell.cur);
    OwnersCount(t);
    var sb := Remount(t.sb);
    var t' := new InodeTable(sb, t.owner);
    assert t'.ino == t.ino;
    again := new Shell(t', shell.torn, shell.logs, shell.shape);
    StillCached(t', again.cur);
  }

  /** A whole session of main and the start of the next one. If every command lets the shell
      go on, the session ends well exactly if the current directory has no unsaved changes
      then, as it is in a session that began without any and in which no creation has run
      out of space with a block already taken. The next session finds all as it was. */
  method Session(shell: Shell, commands: seq<Command>)
    returns (executed: nat, end: End, again: Shell?, ghost trace: seq<State>)
    requires shell.Inv() && forall k :: 0 <= k < |commands| ==> WordsOk(commands[k])
    modifies shell, shell.t, shell.t.sb, shell.t.sb.inodeFreemap.v, shell.t.sb.blockFreemap.v, shell.cur
    ensures executed <= |commands| && IsTrace(trace, commands[..executed]) && trace[0] == old(shell.Now())
    ensures executed < |commands| ==>
              && (end == Stops <==> StopsAt(trace[executed], commands[executed]))
              && (end == Broken <==> StrandsAt(trace[executed], commands[executed]))
              && (end == NoRoom <==> NoRoomAt(trace[executed], commands[executed]))
    ensures executed == |commands| ==> end == if trace[executed].dirty then Stops else Goes
    ensures end == Goes <==> again != null
    ensures end == Goes ==>
              && executed == |commands| && again.Inv() && 0 < |trace[executed].ino|
              && again.Now() == trace[executed].(nr := 0, d := trace[executed].ino[0])
    ensures (&& executed == |commands| && !old(shell.cur.dirty)
             && forall k :: 0 <= k < |commands| ==> !SpoilsAt(trace[k], commands[k])) ==>
              end == Goes
  {
    hide InodeTable.Valid, InOrder, InodeTable.Coherent, Shell.Alone, StopsAt, StrandsAt, NoRoomAt, SpoilsAt, Step,
         SuperBlock.Available;
    again := null;
    executed, end, trace := shell.Run(commands);
    if end != Goes {
      return;
    }
    assert commands[..executed] == commands;
    if !old(shell.cur.dirty) && forall k :: 0 <= k < |commands| ==> !SpoilsAt(trace[k], commands[k]) {
      CleanRun(trace, commands, |commands|);
    }
    if shell.cur.dirty {
      return executed, Stops, null, trace;
    }
    again := Reopen(shell);
  }
}
