/** Runs of the shell on a new file system: one in which a directory comes and goes, and those
    in which the file system does not do what it should. The limit
    on the size is the argument of testfs_make_super_block; mktestfs itself passes it whole
    megabytes. */
module FsRuns {
  import opened FsLayout
  import opened FsCodec
  import opened Arith
  import opened FsBitmap
  import opened FsOwnership
  import opened FsSuper
  import opened FsInode
  import opened FsAllocate
  import opened FsBytes
  import opened FsSpace
  import opened FsReadWrite
  import opened FsFiles
  import opened FsDirLog
  import opened FsDirectory
  import opened FsEntries
  import opened FsOrder
  import opened FsCommands
  import opened FsShell
  import opened FsMount
  import T = FsTree

  /** The name of the file in the runs below: "f". */
  const NAME: Bytes := [102]

  /** The shell stands in the root, where the only entry is an empty file. */
  ghost predicate OneFile(shell: Shell, nr: nat)
    reads shell, shell.cur, shell.t, shell.t.sb
  {
    && shell.cur.nr == 0 && nr != 0 && !shell.cur.dirty && FileRefusal(shell.Now(), NAME) == 0
    && NAME in NamesIn(shell.logs, 0) && NamesIn(shell.logs, 0)[NAME] == nr < |shell.t.ino|
    && shell.t.ino[nr] == NoInode().(kind := I_FILE) && shell.torn == {}
  }

  /** A device of at least two data blocks, of which the root directory takes one. */
  lemma SmallDevice()
    ensures 8 <= NR_DATA_BLOCKS
  {
    assert Relations(SHAPE);
    TimesMonotone(1, SHAPE.blockFreemap, 32 * SHAPE.indirect);
  }

  lemma NewDirSize()
    ensures LogOk(NewDir(0, 0)) && |EncodeLog(NewDir(0, 0))| == 21
  {
    var a, b := Dirent(0, DOT), Dirent(0, DOTDOT);
    assert NewDir(0, 0) == [a] + [b];
    EncodeOne(a);
    EncodeAppend([a], b);
    hide EncodeLog;
  }

  /** The log of a new root directory, with one more record, fits its first block. */
  lemma RootLog(disk: Disk, ino: seq<Dinode>)
    requires HasLog(disk, ino, 0, NewDir(0, 0)) && Solid(disk, ino[0])
    ensures ino[0].size == 21 && NAME !in Names(NewDir(0, 0)) && EntryOk(Dirent(0, NAME))
    ensures Room(NewDir(0, 0), NAME)
    ensures |ino[0].direct| == NR_DIRECT_BLOCKS && FindFree(NewDir(0, 0), 1) == 2
    ensures forall available: nat :: !AddFills(disk, ino[0], available, NewDir(0, 0), 1)
    ensures AddNeeds(disk, ino[0], NewDir(0, 0), 1) == 0
  {
    var es := NewDir(0, 0);
    NewDirLogs(0, 0);
    NewDirNames(0, 0);
    ContentSize(disk, ino, 0);
    OneBlockFits();
    NewDirSize();
    assert es[1..] == [es[1]] && es[2..] == [];
    hide EncodeLog, EncodeEntry, Content, Names, Unique, Fits, InReach, Add, Solid, WriteNeeds, Fills;
    SizeGivesRoom(disk, ino, 0, es, NAME);
    FirstBlockNeeds(disk, ino[0], 21, 10);
    forall available: nat ensures !Fills(disk, ino[0], available, 21, 10) { FillsIs(disk, ino[0], available, 21, 10); }
  }

  /** The facts about the state of a new file system. */
  lemma RootState(t: InodeTable)
    requires InOrder(t.sb.disk, t.ino, t.owner, t.sb.live, {}, map[0 := NewDir(0, 0)], T.Shape(map[], map[0 := 0]))
    ensures && t.sb.live == {0} && |t.ino| == NR_INODES && HasLog(t.sb.disk, t.ino, 0, NewDir(0, 0))
            && Solid(t.sb.disk, t.ino[0])
    ensures NamesIn(map[0 := NewDir(0, 0)], 0) == Names(NewDir(0, 0))
  {
    var logs: Logs := map[0 := NewDir(0, 0)];
    hide FsckBut, HasLog, NewDir, Names, T.Placed, T.DirectoryOk, Solid, NoInode, Settled, Unique, Fits, Whole;
    InOrderFiles(t, {}, logs, T.Shape(map[], map[0 := 0]));
    LogOf(t.sb.disk, t.ino, t.sb.live, logs, 0);
    NewDirNames(0, 0);
    LiveFile(t, 0, {});
  }

  /** The names in the root after a file has been made. */
  lemma NamedFile(nr: nat)
    requires NAME !in Names(NewDir(0, 0)) && nr < 0x8000_0000
    ensures var logs := CreatedLogs(map[0 := NewDir(0, 0)], 0, I_FILE, NAME, nr);
            logs.Keys == {0} && NAME in NamesIn(logs, 0) && NamesIn(logs, 0)[NAME] == nr
  {
    hide Names, NewDir, Add, Unique;
    NewDirNames(0, 0);
    AddIsUpdate(NewDir(0, 0), Dirent(nr, NAME));
  }

  lemma SecondInode(live: set<nat>, nr: nat)
    requires live == {0} && LowestFree(live, nr)
    ensures nr == 1
  {
    var one: nat := 1;
    assert one < nr ==> one in live;
  }

  lemma RoomInTable(live: set<nat>)
    requires live == {0} && 1 < NR_INODES
    ensures !TableFull(live)
  {
    var one: nat := 1;
    assert one !in live;
  }

  /** A shell on a new file system. */
  ghost predicate Fresh(shell: Shell)
    reads shell, shell.cur, shell.t, shell.t.sb
  {
    && shell.cur.nr == 0 && !shell.cur.dirty && shell.torn == {} && shell.logs == map[0 := NewDir(0, 0)]
    && shell.t.sb.live == {0} && 0 < |shell.t.ino| && shell.cur.d == shell.t.ino[0]
    && HasLog(shell.t.sb.disk, shell.t.ino, 0, NewDir(0, 0)) && Solid(shell.t.sb.disk, shell.t.ino[0])
  }

  method NewShell(blank: Disk, maxFsBlocks: nat) returns (shell: Shell)
    requires |blank| == DEVICE_BLOCKS && forall b :: DATA_BLOCKS_START <= b < |blank| ==> blank[b] == ZERO_BLOCK
    requires 1 <= maxFsBlocks <= NR_DATA_BLOCKS
    ensures fresh(shell) && fresh(shell.t) && fresh(shell.t.sb) && fresh(shell.cur)
    ensures fresh(shell.t.sb.inodeFreemap.v) && fresh(shell.t.sb.blockFreemap.v)
    ensures shell.Inv() && Fresh(shell) && shell.t.sb.Available() == maxFsBlocks - 1
  {
    hide InodeTable.Valid, InOrder, NewDir, NoInode, SuperBlock.Available, HasLog, Solid;
    DeviceIs32Bit();
    var ret, t := MakeFs(blank, maxFsBlocks);
    RootState(t);
    shell := new Shell(t, {}, map[0 := NewDir(0, 0)], T.Shape(map[], map[0 := 0]));
    StillCached(t, shell.cur);
  }

  lemma NoAddStrands(disk: Disk, d: Dinode, available: nat)
    requires d.size == 21 && FindFree(NewDir(0, 0), 1) == 2
    ensures !AddStrands(d, available, NewDir(0, 0), 1)
  {
    OneBlockFits();
    OneBlock(21, 10);
  }

  /** Making a file in it takes no block. */
  lemma FreshRoom(shell: Shell)
    requires Fresh(shell) && 1 < NR_INODES && 0 <= shell.t.sb.Available()
    ensures var s := shell.Now(); !NewFills(s, I_FILE, NAME) && NewNeeds(s, I_FILE, NAME) == 0
    ensures EntryOk(Dirent(0, NAME)) && HasRoom(shell.Now(), NAME) && NAME !in Here(shell.Now())
    ensures NAME !in Names(NewDir(0, 0)) && !NewStrands(shell.Now(), I_FILE, NAME)
  {
    hide NewDir, SuperBlock.Available, HasLog, Solid, TableFull, AddFills, AddNeeds, Names, Room;
    RootLog(shell.t.sb.disk, shell.t.ino);
    RoomInTable(shell.t.sb.live);
    NewDirNames(0, 0);
    NoAddStrands(shell.t.sb.disk, shell.cur.d, shell.t.sb.Available());
  }

  /** On a new file system, create f. */
  method OneFileRun(blank: Disk, maxFsBlocks: nat) returns (shell: Shell, ghost nr: nat)
    requires |blank| == DEVICE_BLOCKS && forall b :: DATA_BLOCKS_START <= b < |blank| ==> blank[b] == ZERO_BLOCK
    requires 2 <= maxFsBlocks <= NR_DATA_BLOCKS && 1 < NR_INODES
    ensures fresh(shell) && fresh(shell.t) && fresh(shell.t.sb) && fresh(shell.cur)
    ensures fresh(shell.t.sb.inodeFreemap.v) && fresh(shell.t.sb.blockFreemap.v)
    ensures shell.Inv() && OneFile(shell, nr) && shell.t.sb.Available() == maxFsBlocks - 1
  {
    hide InodeTable.Valid, InOrder, NewDir, Names, CreatedLogs, Kept, NoInode, SuperBlock.Available, HasLog, Solid,
         LowestFree, NamesIn, NewFills, NewStrands, NewNeeds, HasRoom;
    DeviceIs32Bit();
    shell := NewShell(blank, maxFsBlocks);
    FreshRoom(shell);
    ghost var s := shell.Now();
    var ret, sound := shell.Create(I_FILE, NAME);
    nr :| Makes(s, I_FILE, NAME, nr, shell.Now());
    SecondInode(s.live, nr);
    NamedFile(nr);
  }

  /** Making a directory in it takes the block of the directory. */
  lemma FreshDirRoom(shell: Shell)
    requires Fresh(shell) && 1 < NR_INODES && 1 <= shell.t.sb.Available()
    ensures var s := shell.Now(); !NewFills(s, I_DIR, NAME) && !NewStrands(s, I_DIR, NAME)
    ensures EntryOk(Dirent(0, NAME)) && HasRoom(shell.Now(), NAME) && NAME !in Here(shell.Now())
  {
    hide NewDir, SuperBlock.Available, HasLog, Solid, TableFull, AddFills, AddNeeds, Names, Room;
    RootLog(shell.t.sb.disk, shell.t.ino);
    RoomInTable(shell.t.sb.live);
    NewDirNames(0, 0);
    NoAddStrands(shell.t.sb.disk, shell.cur.d, shell.t.sb.Available() - 1);
  }

  /** On a new file system, mkdir and rm of the empty directory: both succeed, and the root is
      alone again. */
  method ComeAndGoRun(blank: Disk, maxFsBlocks: nat) returns (shell: Shell, made: int, removed: int)
    requires |blank| == DEVICE_BLOCKS && forall b :: DATA_BLOCKS_START <= b < |blank| ==> blank[b] == ZERO_BLOCK
    requires 2 <= maxFsBlocks <= NR_DATA_BLOCKS && 1 < NR_INODES
    ensures made == 0 && removed == 0 && shell.Inv()
    ensures shell.t.sb.live == {0} && NAME !in Here(shell.Now())
  {
    hide InodeTable.Valid, InOrder, NewDir, Names, Kept, NoInode, SuperBlock.Available, HasLog, Solid, NamesIn,
         NewFills, NewStrands, NewNeeds, HasRoom, CreatedLogs, RemovedLogs, Tight, RmRefusal, Whole;
    DeviceIs32Bit();
    shell := NewShell(blank, maxFsBlocks);
    FreshDirRoom(shell);
    ghost var s0 := shell.Now();
    var sound;
    made, sound := shell.Create(I_DIR, NAME);
    ghost var s1 := shell.Now();
    ghost var nr :| Makes(s0, I_DIR, NAME, nr, s1);
    Removes(shell, s0, nr);
    var passed;
    removed, passed := shell.Rm(NAME);
    RemovedNames(s1, NAME, shell.Now());
  }

  /** The new directory is bare and whole, so that nothing keeps rm from removing it. */
  lemma Removes(shell: Shell, s0: State, nr: nat)
    requires Ordered(s0) && Makes(s0, I_DIR, NAME, nr, shell.Now()) && NAME !in Here(s0) && shell.torn == {}
    requires shell.cur.nr == s0.nr
    requires shell.Inv()
    ensures NAME in Here(shell.Now()) && Here(shell.Now())[NAME] == nr && !Populated(shell.logs, nr)
    ensures !RemovesLoose(shell.Now(), NAME) && RmRefusal(shell.logs, shell.cur.nr, NAME) == 0
  {
    hide InodeTable.Valid, InOrder, Kept, NoInode, SuperBlock.Available, HasLog, NamesIn, CreatedLogs, Tight, RmRefusal,
         LowestFree, Populated, T.WithPlace;
    var t := shell.t;
    MadeNames(s0, I_DIR, NAME, nr, shell.Now());
    NothingIn(shell.logs, nr, s0.nr);
    TightOne(t, shell.logs, shell.shape, nr);
    RmRefusalMeans(t.sb.disk, t.ino, t.owner, t.sb.live, {}, shell.logs, shell.shape, shell.cur.nr, NAME);
  }

  lemma NothingIn(logs: Logs, nr: nat, up: nat)
    requires NamesIn(logs, nr) == map[DOT := nr, DOTDOT := up]
    ensures !Populated(logs, nr)
  {
    hide NamesIn;
  }

  lemma TightOne(t: InodeTable, logs: Logs, shape: T.Shape, nr: nat)
    requires InOrder(t.sb.disk, t.ino, t.owner, t.sb.live, {}, logs, shape) && nr in t.sb.live
    ensures nr < |t.ino| && Tight(t.sb.disk, t.ino[nr])
  {
    hide InOrder, Tight, ZeroBeyond, FileOk, Logged, Meaning, T.Tree;
    InOrderFiles(t, {}, logs, shape);
    LiveFile(t, nr, {});
  }

  /** create f, then write one byte at the first single-indirect block with one block left:
      the block goes to the single-indirect block, the data block fails, and i_indirect
      is left naming a free block. */
  method StrandingRun(blank: Disk) returns (shell: Shell, ret: int)
    requires |blank| == DEVICE_BLOCKS && forall b :: DATA_BLOCKS_START <= b < |blank| ==> blank[b] == ZERO_BLOCK
    requires 1 < NR_INODES
    ensures ret == -ENOSPC && shell.t.Valid() && !shell.t.Fsck()
  {
    hide InodeTable.Valid, InOrder, Kept, NoInode, SuperBlock.Available, NamesIn, WriteLeaves, Fills, StrandsWrite;
    SmallDevice();
    ghost var nr;
    shell, nr := OneFileRun(blank, 2);
    FirstSingle(1);
    var end;
    ghost var done;
    ret, end, done := shell.Write(NAME, PositionOf(NR_DIRECT_BLOCKS, 0), [120]);
    assert end == Broken;
  }

  lemma FirstSingle(available: int)
    requires available == 1
    ensures StrandsWrite(NoInode().(kind := I_FILE), available, PositionOf(NR_DIRECT_BLOCKS, 0), 1)
  {
    MaxFileFits();
    DivMod(BLOCK_SIZE, NR_DIRECT_BLOCKS, 0);
    LastBlockIs(PositionOf(NR_DIRECT_BLOCKS, 0), 1, NR_DIRECT_BLOCKS, 0);
  }

  /** create f, then write two bytes across a block boundary with one block left: the first
      block is mapped, but the size stays 0, so that rm does not find the block and its
      assertion stops the program. */
  method SpillingRun(blank: Disk) returns (shell: Shell, ret: int, passed: bool)
    requires |blank| == DEVICE_BLOCKS && forall b :: DATA_BLOCKS_START <= b < |blank| ==> blank[b] == ZERO_BLOCK
    requires 1 < NR_INODES
    ensures ret == -ENOSPC && !passed
  {
    hide InodeTable.Valid, InOrder, Kept, NoInode, SuperBlock.Available, NamesIn, Fills, StrandsWrite, Spills, Tight,
         Content, StoredLength, BytesUpdated, Clipped, Stores, WriteNeeds;
    SmallDevice();
    OneBlockFits();
    ghost var nr;
    shell, nr := OneFileRun(blank, 2);
    ghost var disk, d := shell.t.sb.disk, NoInode().(kind := I_FILE);
    EmptyInode();
    EmptyTight(disk, d);
    TwoBlocks(disk, d, BLOCK_SIZE - 1, 2);
    var end;
    ghost var done;
    ret, end, done := shell.Write(NAME, BLOCK_SIZE - 1, [120, 121]);
    passed := RemoveIt(shell, nr);
  }

  lemma EmptyInode()
    ensures var d := NoInode().(kind := I_FILE);
            SamePointers(NoInode(), d) && d.size == 0 && |d.direct| == NR_DIRECT_BLOCKS
  {}

  method RemoveIt(shell: Shell, ghost nr: nat) returns (passed: bool)
    requires NAME in NamesIn(shell.logs, shell.cur.nr) && NamesIn(shell.logs, shell.cur.nr)[NAME] == nr < |shell.t.ino|
    requires FileRefusal(shell.Now(), NAME) == 0 && !Tight(shell.t.sb.disk, shell.t.ino[nr])
    requires shell.Inv()
    modifies shell, shell.t, shell.t.sb, shell.t.sb.inodeFreemap.v, shell.t.sb.blockFreemap.v, shell.cur
    ensures !passed
  {
    hide InodeTable.Valid, InOrder, Kept, NamesIn, Tight;
    var ret;
    ret, passed := shell.Rm(NAME);
  }

  /** A write to an empty file across the end of the first block, with one block left. */
  lemma TwoBlocks(disk: Disk, d: Dinode, start: nat, len: nat)
    requires SamePointers(NoInode(), d) && d.size == 0 && |d.direct| == NR_DIRECT_BLOCKS
    requires start < BLOCK_SIZE < start + len <= 2 * BLOCK_SIZE
    ensures BlockNr(start) == 0 && Fills(disk, d, 1, start, len) && Spills(disk, d, 1, start, len)
    ensures StoredLength(disk, d, 1, start, len) == BLOCK_SIZE - start && !StrandsWrite(d, 1, start, len)
  {
    MaxFileFits();
    OneBlockFits();
    DivMod(BLOCK_SIZE, 0, start);
    DivMod(BLOCK_SIZE, 1, start + len - 1 - BLOCK_SIZE);
    NeedsSteps(disk, d, 0, 0);
    NeedsSteps(disk, d, 0, 1);
    FirstBlockNeeds(disk, d, 0, 1);
    OneBlock(0, 1);
    NothingMapped(disk, d);
    UnmappedCost(disk, d, 0, 1);
    EndOfNothing();
    hide Needs, StepCost, EndBlock, SlotOf, Ptr, BlockNr, LastBlock;
    assert PositionOf(1, 0) == BLOCK_SIZE;
    WriteStops(disk, d, 1, start, len, 1);
  }

  lemma NothingMapped(disk: Disk, d: Dinode)
    requires SamePointers(NoInode(), d) && |d.direct| == NR_DIRECT_BLOCKS
    ensures forall s :: SlotOk(s) ==> Ptr(disk, d, s) == 0
  {
    hide GetInt;
  }

  /** A block without a slot in use costs something, and just itself if it is direct. */
  lemma UnmappedCost(disk: Disk, d: Dinode, lo: nat, l: nat)
    requires |d.direct| == NR_DIRECT_BLOCKS && l < NR_MAX_BLOCK && Ptr(disk, d, SlotOf(l)) == 0
    ensures 0 < StepCost(disk, d, lo, l) && (l < NR_DIRECT_BLOCKS ==> StepCost(disk, d, lo, l) == 1)
  {
    VisitedData(lo, l, l);
    DirectSlot(l);
    hide GetInt, Visited, Ptr;
  }

  /** create f, then write three bytes across a block boundary with one block left, and one
      byte over the second of them. The write without space has left the size at 0 and yet
      stored two bytes, and the first of them shows in the gap before the next write. */
  method GapRun(blank: Disk) returns (shell: Shell, full: int, out: Bytes)
    requires |blank| == DEVICE_BLOCKS && forall b :: DATA_BLOCKS_START <= b < |blank| ==> blank[b] == ZERO_BLOCK
    requires 1 < NR_INODES
    ensures full == -ENOSPC && out == [120, 1]
  {
    hide InodeTable.Valid, InOrder, Kept, NoInode, SuperBlock.Available, NamesIn, Fills, StrandsWrite, Spills, Tight,
         Content, StoredLength, BytesUpdated, Clipped, Stores, WriteNeeds, Torn, GapZero, ZeroBeyond, ZeroFrom, MaxFile,
         BlockNr;
    SmallDevice();
    OneBlockFits();
    MaxFileFits();
    ghost var nr;
    shell, nr := OneFileRun(blank, 2);
    EmptyInode();
    ghost var at := BLOCK_SIZE - 2;
    ghost var disk, d := shell.t.sb.disk, shell.t.ino[nr];
    TwoBlocks(disk, d, at, 3);
    var end, passed, ret;
    ghost var done;
    full, end, done := shell.Write(NAME, BLOCK_SIZE - 2, [120, 121, 122]);
    ghost var disk1, d1 := shell.t.sb.disk, shell.t.ino[nr];
    assert [120, 121, 122][..done] == [120, 121];
    AvailableIsNat(shell.t);
    FirstBlockThere(disk, d, disk1, d1, shell.t.sb.Available());
    ret, end, done := shell.Write(NAME, BLOCK_SIZE - 1, [1]);
    assert [1][..done] == [1];
    BothShown(disk, d, disk1, d1, shell.t.sb.disk, shell.t.ino, nr);
    ret, out, passed := shell.Read(NAME, BLOCK_SIZE - 2, 2);
  }

  /** The failed write has mapped the first block, so that another in it needs nothing. */
  lemma FirstBlockThere(disk: Disk, d: Dinode, disk1: Disk, d1: Dinode, available: nat)
    requires BytesUpdated(disk, d, disk1, d1, BLOCK_SIZE - 2, [120, 121])
    ensures |d1.direct| == NR_DIRECT_BLOCKS && BlockNr(BLOCK_SIZE - 1) < NR_MAX_BLOCK && BLOCK_SIZE <= MaxFile()
    ensures !Fills(disk1, d1, available, BLOCK_SIZE - 1, 1) && !StrandsWrite(d1, available, BLOCK_SIZE - 1, 1)
    ensures StoredLength(disk1, d1, available, BLOCK_SIZE - 1, 1) == 1
  {
    OneBlockFits();
    OneBlock(BLOCK_SIZE - 1, 1);
    OneBlock(BLOCK_SIZE - 2, 1);
    MaxFileFits();
    assert ByteAt(disk1, d1, BLOCK_SIZE - 2) == 120;
    assert Ptr(disk1, d1, SlotOf(0)) != 0;
    hide Ptr, SlotOf, BlockNr, LastBlock;
    MappedNeedsNothing(disk1, d1, 0, 1);
  }

  lemma BothShown(disk: Disk, d: Dinode, disk1: Disk, d1: Dinode, disk2: Disk, ino: seq<Dinode>, nr: nat)
    requires nr < |ino| && ino[nr].size == BLOCK_SIZE
    requires BytesUpdated(disk, d, disk1, d1, BLOCK_SIZE - 2, [120, 121])
    requires BytesUpdated(disk1, d1, disk2, ino[nr], BLOCK_SIZE - 1, [1])
    ensures |Content(disk2, ino, nr)| == BLOCK_SIZE && Content(disk2, ino, nr)[BLOCK_SIZE - 2..BLOCK_SIZE] == [120, 1]
  {
    OneBlockFits();
    BlockNrBelow(BLOCK_SIZE - 2);
    BlockNrBelow(BLOCK_SIZE - 1);
    hide ByteAt, BlockNr, MaxFile;
    assert FileByte(disk2, ino[nr], BLOCK_SIZE - 2) == 120 && FileByte(disk2, ino[nr], BLOCK_SIZE - 1) == 1;
  }

  /** A write far into f and a read of three thousand million bytes from its start: the
      range lies inside the file, but the result is negative and nothing is printed. */
  method LongReadRun(blank: Disk) returns (shell: Shell, ghost nr: nat, ret: int, out: Bytes)
    requires |blank| == DEVICE_BLOCKS && forall b :: DATA_BLOCKS_START <= b < |blank| ==> blank[b] == ZERO_BLOCK
    requires 1 < NR_INODES && 3000000000 < MaxFile()
    ensures nr < |shell.t.ino| && shell.t.ino[nr].size == 3000000001
    ensures NAME in NamesIn(shell.logs, 0) && NamesIn(shell.logs, 0)[NAME] == nr
    ensures ret == -1294967296 && out == []
  {
    hide InodeTable.Valid, InOrder, Kept, NoInode, SuperBlock.Available, NamesIn, Fills, StrandsWrite, Spills, Tight,
         Content, StoredLength, BytesUpdated, Clipped, Stores, WriteNeeds, MaxFile;
    SmallDevice();
    shell, nr := OneFileRun(blank, 5);
    ghost var disk, d := shell.t.sb.disk, NoInode().(kind := I_FILE);
    EmptyInode();
    FarBlock(disk, d, 3000000000);
    var end, passed;
    ghost var done;
    ret, end, done := shell.Write(NAME, 3000000000, [120]);
    ContentSize(shell.t.sb.disk, shell.t.ino, nr);
    ret, out, passed := shell.Read(NAME, 0, 3000000000);
  }

  lemma FarBlock(disk: Disk, d: Dinode, start: nat)
    requires |d.direct| == NR_DIRECT_BLOCKS && start < MaxFile()
    ensures !Fills(disk, d, 4, start, 1) && !StrandsWrite(d, 4, start, 1)
  {
    BlockNrBelow(start);
    NeedsSteps(disk, d, BlockNr(start), BlockNr(start));
    hide Needs, Ptr, SlotOf, Visited;
  }

  // ---- unsaved changes ----

  /** A name whose record takes a new directory into its third block. */
  function LongName(): Bytes { seq(2 * BLOCK_SIZE, _ => 102) }

  lemma LongNameOk()
    ensures EntryOk(Dirent(0, LongName())) && LongName() !in Names(NewDir(0, 0))
    ensures FindFree(NewDir(0, 0), |LongName()|) == 2
  {
    assert Relations(SHAPE);
    TimesMonotone(1, SHAPE.blockFreemap, 32 * SHAPE.indirect);
    NewDirNames(0, 0);
    OneBlockFits();
    assert NewDir(0, 0)[1..] == [Dirent(0, DOTDOT)] && NewDir(0, 0)[2..] == [];
  }

  /** With one block left, a record of that size in it takes the block and fails. */
  lemma LongRecord(disk: Disk, d: Dinode)
    requires 2 <= NR_DIRECT_BLOCKS && d.size == 21 && Tight(disk, d) && Solid(disk, d)
    ensures AddFills(disk, d, 1, NewDir(0, 0), |LongName()|) && !AddStrands(d, 1, NewDir(0, 0), |LongName()|)
  {
    LongNameOk();
    MaxFileFits();
    OneBlockFits();
    DivMod(BLOCK_SIZE, 0, 21);
    DivMod(BLOCK_SIZE, 2, 29);
    NeedsSteps(disk, d, 0, 0);
    NeedsSteps(disk, d, 0, 1);
    NeedsSteps(disk, d, 0, 2);
    FirstBlockNeeds(disk, d, 21, 10);
    OneBlock(21, 10);
    EndBlockAbove(21, 1);
    EndBlockAbove(21, 2);
    UnmappedCost(disk, d, 0, 1);
    UnmappedCost(disk, d, 0, 2);
    DirectSlot(1);
    assert Ptr(disk, d, Direct(1)) == d.direct[1] == 0;
    hide Needs, StepCost, EndBlock, SlotOf, Ptr, BlockNr, LastBlock, NewDir, LongName;
    WriteStops(disk, d, 1, 21, 2 * BLOCK_SIZE + 9, 2);
  }

  /** On a new file system of two blocks, create with a long name: the record takes the last block
      and fails at the next one, the root is left with unsaved changes, and "cd ." stops
      the program. */
  method DirtyRun(blank: Disk) returns (shell: Shell, end: End)
    requires |blank| == DEVICE_BLOCKS && forall b :: DATA_BLOCKS_START <= b < |blank| ==> blank[b] == ZERO_BLOCK
    requires 1 < NR_INODES && 2 <= NR_DIRECT_BLOCKS
    ensures end == Stops
  {
    hide InodeTable.Valid, InOrder, NewDir, Kept, SuperBlock.Available, HasLog, Solid, NamesIn, LongName, NewFills,
         NewStrands, NewNeeds, HasRoom, TakesSome, Torn;
    SmallDevice();
    shell := NewShell(blank, 2);
    LongFills(shell);
    var ret, sound := shell.Create(I_FILE, LongName());
    end := shell.Execute(CmdCd(DOT));
  }

  lemma LongFills(shell: Shell)
    requires 1 < NR_INODES && 2 <= NR_DIRECT_BLOCKS && Fresh(shell) && shell.t.sb.Available() == 1
    requires shell.Inv()
    ensures var s := shell.Now();
            && NewFills(s, I_FILE, LongName()) && !NewStrands(s, I_FILE, LongName()) && LongName() !in Here(s)
            && TakesSome(s.live, s.available, I_FILE) && DOT in Here(s) && Here(s)[DOT] == 0 && 0 in s.logs
    ensures EntryOk(Dirent(0, LongName()))
  {
    hide InodeTable.Valid, InOrder, NewDir, SuperBlock.Available, HasLog, Solid, TableFull, AddFills, AddStrands, Names,
         LongName, Tight;
    var t := shell.t;
    InOrderFiles(t, {}, shell.logs, shell.shape);
    LiveFile(t, 0, {});
    RootLog(t.sb.disk, t.ino);
    RoomInTable(t.sb.live);
    NewDirNames(0, 0);
    LongNameOk();
    LongRecord(t.sb.disk, shell.cur.d);
  }
}
