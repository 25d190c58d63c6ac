/** fs/dir.c: creating and removing the files and directories that records name. */
module FsEntries {
  import opened Options
  import opened FsLayout
  import opened FsCodec
  import opened Arith
  import opened FsBitmap
  import opened FsOwnership
  import opened FsSuper
  import opened FsInode
  import opened FsAllocate
  import opened FsBytes
  import opened FsSpace
  import opened FsReadWrite
  import opened FsFree
  import opened FsFiles
  import opened FsDirLog
  import opened FsDirectory

  /** Only "." and ".." are in use. */
  predicate Bare(es: seq<Dirent>) {
    forall k :: 0 <= k < |es| && Used(es[k]) ==> es[k].name == DOT || es[k].name == DOTDOT
  }

  // ---- testfs_remove_dirent_allowed ----

  /** The scan of fs/dir.c:129-134. */
  method OnlyDots(t: InodeTable, dir: Inode, ghost es: seq<Dirent>) returns (ret: int)
    requires t.Cached(dir) && dir.d.kind == I_DIR
    requires HasLog(t.sb.disk, t.ino, dir.nr, es)
    requires t.Valid() && t.Fsck()
    ensures ret == if Bare(es) then 0 else -ENOTEMPTY
  {
    hide SuperBlock.Valid, InodeTable.Valid, InodeTable.Fsck, HasLog, EncodeLog;
    ret := 0;
    var offset := 0;
    ghost var k: nat := 0;
    LogStart(t.sb.disk, t.ino, dir.nr, es);
    while ret == 0
      invariant k <= |es| && (ret == 0 ==> offset == OffsetOf(es, k) && Bare(es[..k]))
      invariant ret != 0 ==> ret == -ENOTEMPTY && !Bare(es)
      decreases ret == 0, |es| - k
    {
      var d, next := NextDirent(t, dir, offset, es, k);
      offset := next;
      if d.None? {
        assert es[..k] == es;
        break;
      }
      if d.value.inodeNr < 0 || d.value.name == DOT || d.value.name == DOTDOT {
        k := k + 1;
        continue;
      }
      ret := -ENOTEMPTY;
    }
  }

  lemma TableNumbers(t: InodeTable)
    requires t.Valid()
    ensures forall m :: m in t.table ==> m < NR_INODES && t.table[m].nr == m && 0 < t.table[m].count
  {
    hide SuperBlock.Valid, Accounts, DinodeFits, DiskInode;
  }

  /** Files may be removed, and directories that hold nothing but "." and "..". The
      inode's log is given by `sub` if it is a directory. */
  method RemoveDirentAllowed(t: InodeTable, inodeNr: nat, ghost sub: seq<Dirent>) returns (ret: int)
    requires inodeNr < NR_INODES && (inodeNr in t.table ==> !t.table[inodeNr].dirty)
    requires |t.ino| == NR_INODES
    requires t.ino[inodeNr].kind == I_DIR ==> HasLog(t.sb.disk, t.ino, inodeNr, sub)
    requires t.Valid() && t.Fsck()
    modifies t`table, t.Held(inodeNr)`count
    ensures t.Valid() && t.Fsck()
    ensures t.table == old(t.table) && forall m :: m in t.table ==> t.table[m].count == old(t.table[m].count)
    ensures ret == if t.ino[inodeNr].kind != I_DIR || Bare(sub) then 0 else -ENOTEMPTY
  {
    hide InodeTable.Valid, FsckBut, HasLog, EncodeLog;
    TableNumbers(t);
    ret := 0;
    var dir := t.GetInode(inodeNr);
    if dir.d.kind == I_DIR {
      ret := OnlyDots(t, dir, sub);
    }
    t.PutInode(dir);
  }

  // ---- testfs_remove_dirent ----

  /** The inode a name stands for, 0 if there is none. */
  function Named(es: seq<Dirent>, name: Bytes): nat {
    var k := FindUsed(es, name);
    if k < |es| then es[k].inodeNr else 0
  }

  /** The record of the name is looked at for removal. */
  predicate Goes(es: seq<Dirent>, name: Bytes) {
    name != DOT && name != DOTDOT && FindUsed(es, name) < |es|
  }

  /** The inode object of the name, if one is looked at and it is in memory. */
  ghost function Target(t: InodeTable, es: seq<Dirent>, name: Bytes): set<Inode>
    reads t
  {
    if Goes(es, name) then t.Held(Named(es, name)) else {}
  }

  /** What testfs_remove_dirent needs of the inode a name stands for: a slot, no unsaved
      change, and a well-formed log if it is a directory. */
  ghost predicate Removable(t: InodeTable, es: seq<Dirent>, name: Bytes, sub: seq<Dirent>)
    reads t, t.sb, Target(t, es, name)
  {
    var nr := Named(es, name);
    Goes(es, name) ==>
      && nr < NR_INODES == |t.ino| && (nr in t.table ==> !t.table[nr].dirty)
      && (t.ino[nr].kind == I_DIR ==> HasLog(t.sb.disk, t.ino, nr, sub))
  }

  /** Why a record is not removed; 0 if it is. */
  ghost function Refusal(ino: seq<Dinode>, es: seq<Dirent>, name: Bytes, sub: seq<Dirent>): int {
    if name == DOT || name == DOTDOT then -EINVAL
    else if FindUsed(es, name) == |es| then -ENOENT
    else if Named(es, name) < |ino| && ino[Named(es, name)].kind == I_DIR && !Bare(sub) then -ENOTEMPTY
    else 0
  }

  /** Record k is the one that removing the name looks at. */
  predicate FirstUsed(es: seq<Dirent>, k: nat, name: Bytes) {
    k < |es| && Used(es[k]) && es[k].name == name && forall j: nat :: j < k ==> !(Used(es[j]) && es[j].name == name)
  }

  /** Dots are refused; so are names without a record in use, and directories with a record
      in use for anything but dots; and nothing else is. */
  lemma RefusalIs(ino: seq<Dinode>, es: seq<Dirent>, name: Bytes, sub: seq<Dirent>)
    ensures var r, dots := Refusal(ino, es, name, sub), {DOT, DOTDOT};
            && r in {0, -EINVAL, -ENOENT, -ENOTEMPTY} && (r == -EINVAL <==> name in dots)
            && (r == -ENOENT <==> name !in dots && forall k: nat :: !FirstUsed(es, k, name))
            && forall k: nat :: FirstUsed(es, k, name) && name !in dots ==>
                 && Named(es, name) == es[k].inodeNr
                 && (r == -ENOTEMPTY <==>
                       && es[k].inodeNr < |ino| && ino[es[k].inodeNr].kind == I_DIR
                       && exists j: nat :: j < |sub| && Used(sub[j]) && sub[j].name !in dots)
  {
    var k := FindUsed(es, name);
    assert k < |es| ==> FirstUsed(es, k, name);
  }

  /** The scan of fs/dir.c:159-165 for the record of a name. */
  method FindName(t: InodeTable, dir: Inode, name: Bytes, ghost es: seq<Dirent>)
    returns (inodeNr: int, pOffset: nat, ghost k: nat)
    requires t.Cached(dir) && dir.d.kind == I_DIR
    requires HasLog(t.sb.disk, t.ino, dir.nr, es)
    requires t.Valid() && t.Fsck()
    ensures k == FindUsed(es, name) && LogOk(es)
    ensures inodeNr == if k < |es| then es[k].inodeNr else INVALID_INODE_NR
    ensures k < |es| ==> pOffset == OffsetOf(es, k)
  {
    hide SuperBlock.Valid, InodeTable.Valid, InodeTable.Fsck, HasLog, EncodeLog;
    var offset := 0;
    inodeNr, pOffset, k := INVALID_INODE_NR, 0, 0;
    LogStart(t.sb.disk, t.ino, dir.nr, es);
    while inodeNr == INVALID_INODE_NR
      invariant k <= FindUsed(es, name)
      invariant inodeNr == INVALID_INODE_NR ==> offset == OffsetOf(es, k)
      invariant inodeNr != INVALID_INODE_NR ==>
                  k == FindUsed(es, name) < |es| && inodeNr == es[k].inodeNr && pOffset == OffsetOf(es, k)
      decreases inodeNr == INVALID_INODE_NR, |es| - k
    {
      pOffset := offset;
      var d, next := NextDirent(t, dir, offset, es, k);
      offset := next;
      if d.None? {
        break;
      }
      if d.value.inodeNr < 0 || d.value.name != name {
        k := k + 1;
        continue;
      }
      inodeNr := d.value.inodeNr;
    }
  }

  /** Marks the record of a name as free and returns the inode it named. "." and ".."
      and directories in use are refused. */
  method RemoveDirent(t: InodeTable, dir: Inode, name: Bytes, ghost es: seq<Dirent>, ghost sub: seq<Dirent>,
                      ghost torn: set<nat>)
    returns (ret: int)
    requires t.Cached(dir) && dir.nr in t.sb.live && dir.d.kind == I_DIR
    requires HasLog(t.sb.disk, t.ino, dir.nr, es) && Removable(t, es, name, sub)
    requires t.Valid() && Files(t, torn)
    modifies t`table, t`ino, t`owner, t.sb, t.sb.blockFreemap.v, dir`d, dir`dirty, Target(t, es, name)`count
    ensures t.Valid() && t.Cached(dir) && t.sb.live == old(t.sb.live) && dir.d.kind == I_DIR && Files(t, torn)
    ensures t.table == old(t.table) && forall m :: m in t.table ==> t.table[m].count == old(t.table[m].count)
    ensures OthersSame(old(t.sb.disk), old(t.ino), t.sb.disk, t.ino, dir.nr)
    ensures var refusal := Refusal(old(t.ino), es, name, sub);
            if refusal != 0 then
              && ret == refusal && dir.dirty == old(dir.dirty) && dir.d == old(dir.d)
              && t.sb.disk == old(t.sb.disk) && t.ino == old(t.ino) && t.owner == old(t.owner)
            else
              ret == Named(es, name) && dir.dirty && HasLog(t.sb.disk, t.ino, dir.nr, Remove(es, name))
    ensures t.sb.Available() == old(t.sb.Available())
  {
    hide InodeTable.Valid, HasLog, EncodeLog, EncodeEntry, FsckBut, Own, Inodes, OthersSame, MaxFile, Settled, Fills,
         WriteNeeds, StrandsWrite, SuperBlock.Available;
    FilesFsck(t, dir.nr, torn);
    OthersRefl(t, dir.nr);
    if name == DOT || name == DOTDOT {
      return -EINVAL;
    }
    var inodeNr, pOffset;
    ghost var k;
    inodeNr, pOffset, k := FindName(t, dir, name, es);
    if inodeNr == INVALID_INODE_NR {
      return -ENOENT;
    }
    ret := RemoveDirentAllowed(t, inodeNr, sub);
    if ret < 0 {
      return ret;
    }
    ReplacedEnd(t.sb.disk, t.ino, dir.nr, es, k, Dirent(INVALID_INODE_NR, name));
    ret := WriteDirent(t, dir, Dirent(INVALID_INODE_NR, name), pOffset, es, k, torn);
    if ret >= 0 {
      ret := inodeNr;
    }
  }

  lemma ReplacedEnd(disk: Disk, ino: seq<Dinode>, n: nat, es: seq<Dirent>, k: nat, e: Dirent)
    requires && HasLog(disk, ino, n, es) && k < |es| && |e.name| == |es[k].name| && EntryOk(es[k])
             && e.name == es[k].name && e.inodeNr == INVALID_INODE_NR
    ensures EntryOk(e) && OffsetOf(es, k) + |e.name| + 9 <= MaxFile()
  {
    EntryAt(es, k);
    ContentSize(disk, ino, n);
    hide EncodeEntry, Content, EncodeLog, MaxFile;
  }

  // ---- testfs_create_empty_dir ----

  /** The log of a new directory. */
  function NewDir(nr: nat, parent: nat): seq<Dirent> { [Dirent(nr, DOT), Dirent(parent, DOTDOT)] }

  lemma NewDirLogs(nr: nat, parent: nat)
    requires nr < 0x8000_0000 && parent < 0x8000_0000
    ensures !AddMeets([], DOT) && Add([], Dirent(nr, DOT)) == [Dirent(nr, DOT)]
    ensures !AddMeets([Dirent(nr, DOT)], DOTDOT) && Add([Dirent(nr, DOT)], Dirent(parent, DOTDOT)) == NewDir(nr, parent)
    ensures EntryOk(Dirent(nr, DOT)) && EntryOk(Dirent(parent, DOTDOT))
    ensures Fits([]) && Fits([Dirent(nr, DOT)]) && InReach([Dirent(nr, DOT)]) && InOneBlock([Dirent(nr, DOT)])
    ensures Fits(NewDir(nr, parent)) && InReach(NewDir(nr, parent)) && InOneBlock(NewDir(nr, parent))
    ensures Unique(NewDir(nr, parent)) && Bare(NewDir(nr, parent))
    ensures FindFree([], 1) == 0 && FindFree([Dirent(nr, DOT)], 2) == 1
  {
    var a, b := Dirent(nr, DOT), Dirent(parent, DOTDOT);
    assert EntryOk(a) && EntryOk(b);
    hide Put32;
    assert [a, b][1..] == [b] && [b][1..] == [] && [a][1..] == [];
    assert |EncodeLog([a])| == 10 && |EncodeLog([b])| == 11 && |EncodeLog([a, b])| == 21;
    OneBlockFits();
    assert FindFree([a], 2) == 1 && FindUsed([a], DOTDOT) == 1 && FindUsed([], DOT) == 0;
    assert [a] + [b] == NewDir(nr, parent) && [] + [a] == [a];
  }

  lemma OneBlockFits()
    ensures 32 <= BLOCK_SIZE <= MaxFile()
  {
    TimesMonotone(1, NR_MAX_BLOCK, BLOCK_SIZE);
  }

  lemma EmptyLog(disk: Disk, ino: seq<Dinode>, n: nat)
    requires n < |ino| && ino[n].size == 0
    ensures HasLog(disk, ino, n, [])
  {}

  /** The first record of an empty directory takes its first block, and the next one finds
      that block there. */
  lemma FirstBlockNeeds(disk: Disk, d: Dinode, start: nat, len: nat)
    requires |d.direct| == NR_DIRECT_BLOCKS && 0 < len && start + len <= BLOCK_SIZE
    ensures SamePointers(NoInode(), d) ==> WriteNeeds(disk, d, start, len) == 1
    ensures Solid(disk, d) && 0 < d.size ==> WriteNeeds(disk, d, start, len) == 0
  {
    OneBlock(start, len);
    MaxFileFits();
    NeedsSteps(disk, d, 0, 0);
    DirectSlot(0);
    EndBlockAbove(if d.size < 0 then 0 else d.size, 0);
    hide EndBlock, Needs, LastBlock, BlockNr, SlotOf;
    assert WriteEnd(start, len) == 1;
    if Solid(disk, d) && 0 < d.size { assert Ptr(disk, d, SlotOf(0)) != 0; }
    assert Ptr(disk, d, SlotOf(0)) == d.direct[0];
    assert !Visited(0, 0, SlotOf(0));
  }

  lemma FillsIs(disk: Disk, d: Dinode, available: int, start: nat, len: nat)
    requires |d.direct| == NR_DIRECT_BLOCKS && 0 < len && start + len <= BLOCK_SIZE
    ensures Fills(disk, d, available, start, len) <==> available < WriteNeeds(disk, d, start, len)
  {
    OneBlock(start, len);
    hide WriteNeeds;
  }

  /** Gives a new directory its records "." and "..". That takes one block, so without one
      nothing changes; the undoing of "." in fs/dir.c:193 is never reached, since ".."
      fits the same block. */
  method CreateEmptyDir(t: InodeTable, parent: nat, cdir: Inode, ghost torn: set<nat>) returns (ret: int)
    requires && t.Cached(cdir) && cdir.nr in t.sb.live && cdir.d.kind == I_DIR && cdir.nr < 0x8000_0000
             && parent < 0x8000_0000
    requires HasLog(t.sb.disk, t.ino, cdir.nr, []) && cdir.d.size == 0 && SamePointers(NoInode(), cdir.d)
    requires t.Valid() && Files(t, torn)
    modifies t`table, t`ino, t`owner, t.sb, t.sb.blockFreemap.v, cdir`d, cdir`dirty
    ensures t.table == old(t.table)
    ensures t.Valid() && Files(t, torn) && t.Cached(cdir) && t.sb.live == old(t.sb.live) && cdir.d.kind == I_DIR
    ensures OthersSame(old(t.sb.disk), old(t.ino), t.sb.disk, t.ino, cdir.nr)
    ensures ret == if old(t.sb.Available()) < 1 then -ENOSPC else 0
    ensures ret < 0 ==> t.sb.disk == old(t.sb.disk) && t.ino == old(t.ino) && t.owner == old(t.owner)
    ensures ret == 0 ==>
              && cdir.dirty && HasLog(t.sb.disk, t.ino, cdir.nr, NewDir(cdir.nr, parent))
              && t.sb.Available() == old(t.sb.Available()) - 1
  {
    hide InodeTable.Valid, HasLog, EncodeLog, EncodeEntry, FsckBut, Own, Inodes, OthersSame, MaxFile, Settled, Add,
         AddMeets, Fits, EntryOk, Unique, Fills, WriteNeeds, Solid, SuperBlock.Available, Dangling, StrandsWrite;
    ghost var nr, disk, ino, first := cdir.nr, t.sb.disk, t.ino, [Dirent(cdir.nr, DOT)];
    NewDirLogs(nr, parent);
    OneBlockFits();
    OthersRefl(t, nr);
    FirstBlockNeeds(disk, cdir.d, 0, 10);
    FillsIs(disk, cdir.d, t.sb.Available(), 0, 10);
    ret := AddDirent(t, cdir, DOT, cdir.nr, [], torn);
    if ret < 0 {
      assert t.sb.disk == disk && t.ino == ino;
      return;
    }
    ghost var disk1, ino1 := t.sb.disk, t.ino;
    DirFile(t, nr, torn);
    DotSize(t.sb.disk, t.ino, nr, first);
    AvailableIsNat(t);
    FirstBlockNeeds(t.sb.disk, cdir.d, 10, 11);
    FillsIs(t.sb.disk, cdir.d, t.sb.Available(), 10, 11);
    ret := AddDirent(t, cdir, DOTDOT, parent, first, torn);
    OthersSameThen(disk, ino, disk1, ino1, t.sb.disk, t.ino, nr);
    ret := 0;
  }

  lemma DotSize(disk: Disk, ino: seq<Dinode>, n: nat, first: seq<Dirent>)
    requires HasLog(disk, ino, n, first) && |first| == 1 && first[0].name == DOT
    ensures ino[n].size == 10
  {
    ContentSize(disk, ino, n);
    assert first == [first[0]] && EncodeLog(first) == EncodeEntry(first[0]) + EncodeLog([]);
  }

  // ---- testfs_create_file_or_dir ----

  /** The log of an inode that has just been created: none for a file. */
  function FirstLog(kind: int, nr: nat, parent: nat): seq<Dirent> {
    if kind == I_DIR then NewDir(nr, parent) else []
  }

  /** The lowest inode number that is free. */
  ghost predicate LowestFree(live: set<nat>, nr: nat) {
    nr !in live && nr < NR_INODES && forall i: nat :: i < nr ==> i in live
  }

  /** The inodes of a set, and what they hold, are as before. */
  ghost predicate Kept(disk: Disk, ino: seq<Dinode>, disk': Disk, ino': seq<Dinode>, keep: set<nat>) {
    && |ino'| == |ino|
    && forall m :: m in keep && m < |ino| ==> ino'[m] == ino[m] && Content(disk', ino', m) == Content(disk, ino, m)
  }

  lemma KeptOthers(disk: Disk, ino: seq<Dinode>, disk': Disk, ino': seq<Dinode>, n: nat, keep: set<nat>)
    requires OthersSame(disk, ino, disk', ino', n) && n !in keep
    ensures Kept(disk, ino, disk', ino', keep)
  {
    OthersInOrder(disk, ino, disk', ino', n);
    hide FileOk, OthersSame, Content;
  }

  lemma KeptThen(disk: Disk, ino: seq<Dinode>, disk1: Disk, ino1: seq<Dinode>, disk2: Disk, ino2: seq<Dinode>,
                 keep: set<nat>)
    requires Kept(disk, ino, disk1, ino1, keep) && Kept(disk1, ino1, disk2, ino2, keep)
    ensures Kept(disk, ino, disk2, ino2, keep)
  {
    hide Content;
  }

  lemma KeptLog(disk: Disk, ino: seq<Dinode>, disk': Disk, ino': seq<Dinode>, keep: set<nat>, n: nat, es: seq<Dirent>)
    requires Kept(disk, ino, disk', ino', keep) && n in keep && HasLog(disk, ino, n, es)
    ensures HasLog(disk', ino', n, es) && ino'[n] == ino[n]
  {
    hide Content, EncodeLog;
  }

  /** Writing inodes to their slots changes no content. */
  lemma SavedKeeps(disk: Disk, ino: seq<Dinode>, owner: Owners, skip: int, disk': Disk, keep: set<nat>)
    requires FsOwnership.FsckSave(disk, ino, owner, skip) && SameData(disk, disk')
    ensures Kept(disk, ino, disk', ino, keep)
  {
    hide FsOwnership.FsckSave;
    forall m | m in keep && m < |ino| ensures Content(disk', ino, m) == Content(disk, ino, m) {
      SavedContent(disk, ino, owner, skip, disk', m);
    }
  }

  lemma SavedContent(disk: Disk, ino: seq<Dinode>, owner: Owners, skip: int, disk': Disk, m: nat)
    requires FsOwnership.FsckSave(disk, ino, owner, skip) && SameData(disk, disk') && m < |ino|
    ensures Content(disk', ino, m) == Content(disk, ino, m)
  {
    FilesFrame(disk, ino, owner, skip, disk', m, ino[m]);
    hide FsckBut, OthersSame, BlockNr, ByteAt, Own;
    if ino[m].size >= 0 {
      assert forall p: nat :: FileByte(disk', ino[m], p) == FileByte(disk, ino[m], p);
      assert Slice(disk', ino[m], 0, ino[m].size) == Slice(disk, ino[m], 0, ino[m].size);
    }
  }

  lemma LiveFile(t: InodeTable, n: nat, torn: set<nat>)
    requires Files(t, torn) && n in t.sb.live
    ensures n < |t.ino| && FileOk(t.sb.disk, t.ino[n]) && Settled(t.owner) && torn <= t.sb.live
    ensures n !in torn ==> Whole(t.sb.disk, t.ino[n])
  {
    hide FsckBut, Tight;
  }

  /** No slot of the inode table is free. */
  ghost predicate TableFull(live: set<nat>) { forall i: nat :: i < NR_INODES ==> i in live }

  /** Blocks a new inode takes for its first records. */
  function FirstBlocks(kind: int): nat { if kind == I_DIR then 1 else 0 }

  /** A new inode with its first log, not yet named anywhere. */
  method CreateUnnamed(t: InodeTable, parent: Option<nat>, kind: int, ghost torn: set<nat>)
    returns (ret: int, node: Inode?)
    requires kind == I_FILE || kind == I_DIR
    requires t.table.Keys <= t.sb.live && (parent.Some? ==> parent.value < NR_INODES)
    requires t.Valid() && Files(t, torn)
    modifies t`table, t`ino, t`owner, t.sb, t.sb.inodeFreemap.v, t.sb.blockFreemap.v
    ensures t.Valid() && Files(t, torn)
    ensures ret == if TableFull(old(t.sb.live)) || old(t.sb.Available()) < FirstBlocks(kind) then -ENOSPC else 0
    ensures Kept(old(t.sb.disk), old(t.ino), t.sb.disk, t.ino, old(t.sb.live))
    ensures ret < 0 ==> t.table == old(t.table) && t.sb.live == old(t.sb.live)
    ensures ret == 0 ==>
              && node != null && fresh(node) && t.Cached(node) && node.dirty && node.count == 1
              && LowestFree(old(t.sb.live), node.nr)
              && t.sb.live == old(t.sb.live) + {node.nr} && t.table == old(t.table)[node.nr := node]
              && node.d.kind == kind && (kind == I_FILE ==> node.d == NoInode().(kind := I_FILE))
              && HasLog(t.sb.disk, t.ino, node.nr,
                        FirstLog(kind, node.nr, if parent.Some? then parent.value else node.nr))
              && OthersSame(old(t.sb.disk), old(t.ino), t.sb.disk, t.ino, node.nr)
              && t.sb.Available() == old(t.sb.Available()) - FirstBlocks(kind)
  {
    hide InodeTable.Valid, HasLog, EncodeLog, FsckBut, Own, Inodes, OthersSame, MaxFile, Settled, Tight, Solid,
         ZeroBeyond, SuperBlock.Available, NoInode, TableFull;
    ghost var disk, ino, live, table := t.sb.disk, t.ino, t.sb.live, t.table;
    FsckSized(t);
    AvailableIsNat(t);
    LiveTorn(t, torn);
    ret, node := CreateInode(t, kind, torn);
    assert ret == -ENOSPC <==> TableFull(live) by { TableFullIs(live); }
    if ret < 0 {
      FsckIsSave(disk, ino, t.owner, -1);
      SavedKeeps(disk, ino, t.owner, -1, t.sb.disk, live);
      return;
    }
    ghost var nr, disk1, ino1 := node.nr, t.sb.disk, t.ino;
    EmptySize();
    EmptyLog(t.sb.disk, t.ino, nr);
    NoInodeFits(kind);
    NumberFits(t, node);
    if kind == I_DIR {
      var p := if parent.Some? then parent.value else node.nr;
      ret := CreateEmptyDir(t, p, node, torn);
      OthersSameThen(disk, ino, disk1, ino1, t.sb.disk, t.ino, nr);
      if ret < 0 {
        ghost var disk2, ino2 := t.sb.disk, t.ino;
        LiveFile(t, nr, torn);
        FsckIsSave(t.sb.disk, t.ino, t.owner, -1);
        var passed := RemoveInode(t, node, -1);
        OthersSameThen(disk, ino, disk2, ino2, t.sb.disk, t.ino, nr);
        FsckIsSave(t.sb.disk, t.ino, t.owner, -1);
        InodesUndone(disk, ino, live, torn, t.sb.disk, t.ino, nr);
        assert t.table == table && t.sb.live == live;
      }
    }
    KeptOthers(disk, ino, t.sb.disk, t.ino, nr, live);
  }

  lemma LiveTorn(t: InodeTable, torn: set<nat>)
    requires Files(t, torn)
    ensures torn <= t.sb.live
  {
    hide FsckBut, FileOk, Whole;
  }

  lemma TableFullIs(live: set<nat>)
    ensures TableFull(live) <==> forall i: nat :: i < NR_INODES ==> i in live
  {}

  /** Removing an inode that was not live before leaves the others in order. */
  lemma InodesUndone(disk: Disk, ino: seq<Dinode>, live: set<nat>, torn: set<nat>, disk': Disk, ino': seq<Dinode>,
                     n: nat)
    requires && Inodes(disk, ino, live, torn) && n !in live && n < |ino| && OthersSame(disk, ino, disk', ino', n)
             && ino'[n] == NoInode()
    ensures Inodes(disk', ino', live, torn)
  {
    InodesRemove(disk, ino, live, torn, disk', ino', n);
    assert live - {n} == live && torn - {n} == torn;
  }

  lemma NumberFits(t: InodeTable, node: Inode)
    requires t.Cached(node)
    ensures NR_INODES < 0x8000_0000 && node.nr < NR_INODES
  {
    assert Relations(SHAPE);
  }

  /** A record that would pass the last addressable byte is cut off there, and the directory
      holds no log any more; or, with no byte left, it is not entered at all. */
  ghost predicate PastReach(disk: Disk, ino: seq<Dinode>, d: nat, es: seq<Dirent>, e: Dirent, size: int, failed: bool) {
    && (failed <==> size < MaxFile())
    && if failed then CutShort(disk, ino, d, es, e) else HasLog(disk, ino, d, es)
  }

  lemma KeptCut(disk: Disk, ino: seq<Dinode>, disk': Disk, ino': seq<Dinode>, keep: set<nat>, d: nat, es: seq<Dirent>,
                e: Dirent)
    requires Kept(disk, ino, disk', ino', keep) && d in keep && CutShort(disk, ino, d, es, e)
    ensures CutShort(disk', ino', d, es, e)
  {
    hide Content, EncodeLog, EncodeEntry, MaxFile;
  }

  /** Enters a new inode into its directory; if that runs out of space or range, removes
      the inode again (fs/dir.c:223-226, 230-231). */
  method LinkNew(t: InodeTable, dir: Inode, node: Inode, name: Bytes, ghost es: seq<Dirent>, ghost sub: seq<Dirent>,
                 ghost live: set<nat>, ghost torn: set<nat>) returns (ret: int)
    requires t.Cached(dir) && dir.nr in live && dir.d.kind == I_DIR
    requires t.Cached(node) && node.nr !in live && t.sb.live == live + {node.nr} && node.count == 1 && node.nr !in torn
    requires && EntryOk(Dirent(node.nr, name)) && HasLog(t.sb.disk, t.ino, dir.nr, es) && Fits(es)
             && FindUsed(es, name) == |es|
    requires HasLog(t.sb.disk, t.ino, node.nr, sub)
    requires t.Valid() && Files(t, torn)
    modifies t`table, t`ino, t`owner, t.sb, t.sb.inodeFreemap.v, t.sb.blockFreemap.v, node, dir`d, dir`dirty
    ensures t.Valid() && Settled(t.owner) && t.Cached(dir) && dir.d.kind == I_DIR
    ensures t.FsckSave(dir.nr) && (!t.Fsck() ==> Dangling(t, dir))
    ensures t.Fsck() <==> !AddStrands(old(dir.d), old(t.sb.Available()), es, |name|)
    ensures var full := AddFills(old(t.sb.disk), old(dir.d), old(t.sb.Available()), es, |name|);
            && (ret == -ENOSPC <==> full)
            && (t.Fsck() ==> Files(t, if full then torn + {dir.nr} else torn))
            && (full ==> HasLog(t.sb.disk, t.ino, dir.nr, es))
            && (full ==> (dir.dirty <==> old(dir.dirty) || 0 < old(t.sb.Available())))
            && (!full ==> t.Fsck())
            && (ret >= 0 ==>
                  t.sb.Available() == old(t.sb.Available()) - AddNeeds(old(t.sb.disk), old(dir.d), es, |name|))
    ensures Kept(old(t.sb.disk), old(t.ino), t.sb.disk, t.ino, live - {dir.nr})
    ensures ret < 0 ==> ret in {-EFBIG, -ENOSPC} && t.sb.live == live && t.table == old(t.table) - {node.nr}
    ensures ret >= 0 ==>
              && t.sb.live == live + {node.nr} && t.table == old(t.table)
              && t.Cached(node) && node.d == old(node.d) && node.dirty == old(node.dirty) && node.count == 1
              && HasLog(t.sb.disk, t.ino, node.nr, sub)
    ensures InReach(Add(es, Dirent(node.nr, name))) ==>
              && ret != -EFBIG
              && (ret >= 0 ==> HasLog(t.sb.disk, t.ino, dir.nr, Add(es, Dirent(node.nr, name))))
    ensures !InReach(Add(es, Dirent(node.nr, name))) && ret != -ENOSPC ==>
              PastReach(t.sb.disk, t.ino, dir.nr, es, Dirent(node.nr, name), old(dir.d).size, ret < 0)
  {
    hide InodeTable.Valid, HasLog, EncodeLog, FsckBut, Own, Inodes, OthersSame, MaxFile, Settled, Tight, ZeroBeyond,
         Solid, Add, Fits, InReach, AddFills, AddNeeds, AddStrands, SuperBlock.Available, CutShort;
    ghost var nr, disk, ino := node.nr, t.sb.disk, t.ino;
    FsckSized(t);
    LiveFile(t, nr, torn);
    assert !AddMeets(es, name);
    ret := AddDirent(t, dir, name, node.nr, es, torn);
    OthersInOrder(disk, ino, t.sb.disk, t.ino, dir.nr);
    KeptOthers(disk, ino, t.sb.disk, t.ino, dir.nr, live + {nr} - {dir.nr});
    StillCached(t, node);
    KeptLog(disk, ino, t.sb.disk, t.ino, live + {nr} - {dir.nr}, nr, sub);
    if ret < 0 {
      ghost var torn1 := if ret == -ENOSPC then torn + {dir.nr} else torn;
      ghost var disk1, ino1 := t.sb.disk, t.ino;
      UndoNew(t, dir, node, es, live, torn1);
      if ret == -EFBIG { KeptCut(disk1, ino1, t.sb.disk, t.ino, live, dir.nr, es, Dirent(nr, name)); }
      KeptSome(disk, ino, disk1, ino1, live + {nr} - {dir.nr}, live - {dir.nr});
      KeptThen(disk, ino, disk1, ino1, t.sb.disk, t.ino, live - {dir.nr});
    }
  }

  /** testfs_remove_inode for the new inode; its directory may name a free block. */
  method UndoNew(t: InodeTable, dir: Inode, node: Inode, ghost es: seq<Dirent>, ghost live: set<nat>,
                 ghost torn: set<nat>)
    requires t.Cached(dir) && dir.nr in live && t.Cached(node) && node.nr !in live && t.sb.live == live + {node.nr}
    requires node.count == 1 && node.nr !in torn && 0 <= node.d.size && Whole(t.sb.disk, node.d)
    requires Settled(t.owner) && (!t.Fsck() ==> Dangling(t, dir)) && (t.Fsck() ==> Files(t, torn))
    requires t.Valid() && t.FsckSave(dir.nr)
    modifies t`table, t`ino, t`owner, t.sb, t.sb.inodeFreemap.v, t.sb.blockFreemap.v, node
    ensures t.Valid() && Settled(t.owner) && t.Cached(dir) && t.sb.live == live && t.table == old(t.table) - {node.nr}
    ensures t.FsckSave(dir.nr) && (!t.Fsck() ==> Dangling(t, dir))
    ensures t.Fsck() <==> old(t.Fsck())
    ensures t.Fsck() ==> Files(t, torn)
    ensures Kept(old(t.sb.disk), old(t.ino), t.sb.disk, t.ino, live)
    ensures old(HasLog(t.sb.disk, t.ino, dir.nr, es)) ==> HasLog(t.sb.disk, t.ino, dir.nr, es)
  {
    hide InodeTable.Valid, HasLog, FsckBut, Own, Inodes, OthersSame, Settled, Tight, ZeroBeyond;
    ghost var nr, disk, ino, sound := node.nr, t.sb.disk, t.ino, t.Fsck();
    FsckIsSave(disk, ino, t.owner, -1);
    SavedSized(t, dir.nr);
    var passed := RemoveInode(t, node, if sound then -1 else dir.nr);
    KeptOthers(disk, ino, t.sb.disk, t.ino, nr, live);
    StillCached(t, dir);
    if HasLog(disk, ino, dir.nr, es) { KeptLog(disk, ino, t.sb.disk, t.ino, live, dir.nr, es); }
    if sound {
      FsckIsSave(t.sb.disk, t.ino, t.owner, -1);
      InodesRemove(disk, ino, live + {nr}, torn, t.sb.disk, t.ino, nr);
      assert live + {nr} - {nr} == live && torn - {nr} == torn;
      FsckIsSave(t.sb.disk, t.ino, t.owner, dir.nr);
    } else {
      DanglingBreaks(t, dir);
    }
  }

  lemma SavedSized(t: InodeTable, n: nat)
    requires t.FsckSave(n)
    ensures Sized(t.ino) && |t.ino| == NR_INODES
  {}

  lemma StillCached(t: InodeTable, node: Inode)
    requires node.nr in t.table && t.table[node.nr] == node
    requires t.Valid()
    ensures t.Cached(node)
  {
    AccountsFit(t.ino, t.owner, node.nr);
    hide SuperBlock.Valid, Accounts, DinodeFits, DiskInode;
  }

  /** Saves the directory and the new inode and drops the latter (fs/dir.c:232-235). */
  method SaveNew(t: InodeTable, dir: Inode?, node: Inode, ghost torn: set<nat>)
    requires t.Cached(node) && node.count == 1 && (dir != null ==> t.Cached(dir) && dir.nr != node.nr)
    requires t.Valid() && Files(t, torn)
    modifies t`table, t.sb`disk, node, (if dir == null then {} else {dir})`dirty
    ensures t.Valid() && Files(t, torn) && SameData(old(t.sb.disk), t.sb.disk)
    ensures t.table == old(t.table) - {node.nr}
    ensures dir != null ==> t.Cached(dir) && !dir.dirty
  {
    hide InodeTable.Valid, FsckBut, Own, Inodes, Settled;
    DiskSize(t);
    ghost var disk, disk1 := t.sb.disk, t.sb.disk;
    if dir != null {
      t.SyncInode(dir);
      disk1 := t.sb.disk;
    }
    t.SyncInode(node);
    FilesSameData(disk, t.ino, t.owner, t.sb.live, torn, t.sb.disk);
    t.PutInode(node);
  }

  /** The second half of testfs_create_file_or_dir (fs/dir.c:228-238). */
  method LinkAndSave(t: InodeTable, dir: Inode?, node: Inode, name: Bytes, ghost es: seq<Dirent>,
                     ghost sub: seq<Dirent>,
                     ghost live: set<nat>, ghost torn: set<nat>)
    returns (ret: int)
    requires dir != null ==>
               && t.Cached(dir) && dir.nr in live && dir.d.kind == I_DIR
               && EntryOk(Dirent(node.nr, name)) && HasLog(t.sb.disk, t.ino, dir.nr, es) && Fits(es)
               && FindUsed(es, name) == |es|
    requires t.Cached(node) && node.nr !in live && t.sb.live == live + {node.nr} && node.count == 1 && node.nr !in torn
    requires HasLog(t.sb.disk, t.ino, node.nr, sub)
    requires t.Valid() && Files(t, torn)
    modifies t`table, t`ino, t`owner, t.sb, t.sb.inodeFreemap.v, t.sb.blockFreemap.v, node
    modifies (if dir == null then {} else {dir})`d, (if dir == null then {} else {dir})`dirty
    ensures t.Valid() && Settled(t.owner) && t.table == old(t.table) - {node.nr}
    ensures && ret in {0, -EFBIG, -ENOSPC}
            && (dir == null ==> ret == 0 && Files(t, torn) && t.sb.Available() == old(t.sb.Available()))
    ensures dir != null ==>
              t.Cached(dir) && dir.d.kind == I_DIR && t.FsckSave(dir.nr) && (!t.Fsck() ==> Dangling(t, dir))
    ensures dir != null ==>
              && (t.Fsck() <==> !AddStrands(old(dir.d), old(t.sb.Available()), es, |name|))
              && (ret == -ENOSPC <==> AddFills(old(t.sb.disk), old(dir.d), old(t.sb.Available()), es, |name|))
              && (t.Fsck() ==> Files(t, if ret == -ENOSPC then torn + {dir.nr} else torn))
              && (ret == -ENOSPC ==> HasLog(t.sb.disk, t.ino, dir.nr, es))
              && (ret == -ENOSPC ==> (dir.dirty <==> old(dir.dirty) || 0 < old(t.sb.Available())))
              && (ret != -ENOSPC ==> t.Fsck())
              && (ret == 0 ==>
                    t.sb.Available() == old(t.sb.Available()) - AddNeeds(old(t.sb.disk), old(dir.d), es, |name|))
    ensures Kept(old(t.sb.disk), old(t.ino), t.sb.disk, t.ino, if dir == null then live else live - {dir.nr})
    ensures ret < 0 ==> t.sb.live == live
    ensures ret == 0 ==>
              && t.sb.live == live + {node.nr}
              && node.nr < |t.ino| && t.ino[node.nr] == old(node.d) && HasLog(t.sb.disk, t.ino, node.nr, sub)
    ensures ret == 0 && dir != null ==> !dir.dirty
    ensures dir != null && InReach(Add(es, Dirent(node.nr, name))) ==>
              && ret != -EFBIG
              && (ret == 0 ==> HasLog(t.sb.disk, t.ino, dir.nr, Add(es, Dirent(node.nr, name))))
    ensures dir != null && !InReach(Add(es, Dirent(node.nr, name))) && ret != -ENOSPC ==>
              PastReach(t.sb.disk, t.ino, dir.nr, es, Dirent(node.nr, name), old(dir.d).size, ret < 0)
  {
    hide InodeTable.Valid, HasLog, EncodeLog, FsckBut, Own, Inodes, OthersSame, MaxFile, Settled, FileOk, Tight, Add,
         AddMeets, Fits, InReach, Kept, AddFills, AddNeeds, AddStrands, SuperBlock.Available, CutShort;
    ghost var keep := if dir == null then live else live - {dir.nr};
    ghost var disk, ino := t.sb.disk, t.ino;
    KeptSelf(disk, ino, keep);
    if dir != null {
      ret := LinkNew(t, dir, node, name, es, sub, live, torn);
      if ret < 0 {
        return;
      }
    }
    ret := 0;
    ghost var disk1, ino1 := t.sb.disk, t.ino;
    SaveNew(t, dir, node, torn);
    FilesFsck(t, if dir == null then 0 else dir.nr, torn);
    FsckIsSave(disk1, ino1, t.owner, -1);
    SavedKeeps(disk1, ino1, t.owner, -1, t.sb.disk, t.sb.live);
    KeptSome(disk1, ino1, t.sb.disk, ino1, t.sb.live, keep);
    KeptThen(disk, ino, disk1, ino1, t.sb.disk, ino1, keep);
    KeptLog(disk1, ino1, t.sb.disk, ino1, t.sb.live, node.nr, sub);
    if dir != null && InReach(Add(es, Dirent(node.nr, name))) {
      KeptLog(disk1, ino1, t.sb.disk, ino1, t.sb.live, dir.nr, Add(es, Dirent(node.nr, name)));
    } else if dir != null {
      KeptLog(disk1, ino1, t.sb.disk, ino1, t.sb.live, dir.nr, es);
    }
  }

  lemma KeptSelf(disk: Disk, ino: seq<Dinode>, keep: set<nat>)
    ensures Kept(disk, ino, disk, ino, keep)
  {}

  lemma KeptSome(disk: Disk, ino: seq<Dinode>, disk': Disk, ino': seq<Dinode>, keep: set<nat>, some: set<nat>)
    requires Kept(disk, ino, disk', ino', keep) && some <= keep
    ensures Kept(disk, ino, disk', ino', some)
  {
    hide Content;
  }

  /** The number a record holds does not affect its size. */
  lemma AddSize(es: seq<Dirent>, nr: nat, name: Bytes)
    requires nr < 0x8000_0000
    ensures InReach(Add(es, Dirent(nr, name))) <==> InReach(Add(es, Dirent(0, name)))
    ensures Fits(Add(es, Dirent(nr, name))) <==> Fits(Add(es, Dirent(0, name)))
  {
    var a, b := Add(es, Dirent(nr, name)), Add(es, Dirent(0, name));
    if LogOk(a) || LogOk(b) {
      var k := FindFree(es, |name|);
      assert forall j :: 0 <= j < |a| && j != k ==> a[j] == b[j];
      assert a[k] == Dirent(nr, name) && b[k] == Dirent(0, name);
      SameLengths(a, b);
    }
  }

  lemma {:induction false} SameLengths(a: seq<Dirent>, b: seq<Dirent>)
    requires LogOk(a) && LogOk(b) && |a| == |b| && forall j :: 0 <= j < |a| ==> |a[j].name| == |b[j].name|
    ensures |EncodeLog(a)| == |EncodeLog(b)|
  {
    hide Put32;
    if a != [] { SameLengths(a[1..], b[1..]); }
  }

  /** There is no inode, or no block for its first records. */
  ghost predicate NoneLeft(live: set<nat>, available: int, kind: int) {
    TableFull(live) || available < FirstBlocks(kind)
  }

  /** The inode and its first records can be had, and there is a block left: a creation that
      runs out of space then does so when it adds the record, with that block taken. */
  ghost predicate TakesSome(live: set<nat>, available: int, kind: int) {
    !TableFull(live) && FirstBlocks(kind) < available
  }

  /** Creating runs out of space, before the record is added or when it is; what it takes;
      and whether it loses the ownership invariant. */
  ghost predicate CreateFills(disk: Disk, d: Dinode, available: int, live: set<nat>, es: seq<Dirent>, kind: int,
                              len: nat)
    requires |d.direct| == NR_DIRECT_BLOCKS
  {
    NoneLeft(live, available, kind) || AddFills(disk, d, available - FirstBlocks(kind), es, len)
  }

  ghost function CreateNeeds(disk: Disk, d: Dinode, es: seq<Dirent>, kind: int, len: nat): nat
    requires |d.direct| == NR_DIRECT_BLOCKS
  {
    FirstBlocks(kind) + AddNeeds(disk, d, es, len)
  }

  ghost predicate CreateStrands(d: Dinode, available: int, live: set<nat>, es: seq<Dirent>, kind: int, len: nat) {
    !NoneLeft(live, available, kind) && AddStrands(d, available - FirstBlocks(kind), es, len)
  }

  /** Adding to a directory costs the same after another inode has been made. */
  lemma AddSame(disk: Disk, ino: seq<Dinode>, disk': Disk, ino': seq<Dinode>, n: nat, m: nat, available: int,
                es: seq<Dirent>, len: nat)
    requires OthersSame(disk, ino, disk', ino', n) && m < |ino| && m != n
    ensures |ino| == |ino'| && ino'[m] == ino[m] && |ino[m].direct| == NR_DIRECT_BLOCKS
    ensures AddFills(disk', ino[m], available, es, len) <==> AddFills(disk, ino[m], available, es, len)
    ensures AddNeeds(disk', ino[m], es, len) == AddNeeds(disk, ino[m], es, len)
  {
    hide Ptr, BlockView, Needs, LastBlock, BlockNr;
    if 0 <= ino[m].size {
      SameNeeds(disk, ino[m], disk', ino[m], BlockNr(ino[m].size), WriteEnd(ino[m].size, len + 9));
    }
  }

  /** Creates a file or directory under a name that is not in use; without a directory,
      the root. */
  method CreateFileOrDir(t: InodeTable, dir: Inode?, kind: int, name: Bytes, ghost es: seq<Dirent>,
                         ghost torn: set<nat>)
    returns (ret: int, ghost nr: nat)
    requires kind == I_FILE || kind == I_DIR
    requires t.table.Keys <= t.sb.live
    requires dir != null ==>
               && t.Cached(dir) && dir.nr in t.sb.live && dir.d.kind == I_DIR
               && EntryOk(Dirent(0, name)) && HasLog(t.sb.disk, t.ino, dir.nr, es) && Fits(es)
    requires t.Valid() && Files(t, torn)
    modifies t`table, t`ino, t`owner, t.sb, t.sb.inodeFreemap.v, t.sb.blockFreemap.v
    modifies (if dir == null then {} else {dir})`d, (if dir == null then {} else {dir})`dirty
    ensures t.Valid() && Settled(t.owner) && t.table == old(t.table)
    ensures ret in {0, -EEXIST, -EFBIG, -ENOSPC} && nr < 0x8000_0000
    ensures ret in {0, -EFBIG} ==> nr !in old(t.sb.live)
    ensures dir == null ==>
              && ret == (if NoneLeft(old(t.sb.live), old(t.sb.Available()), kind) then -ENOSPC else 0)
              && Files(t, torn) && (ret == 0 ==> t.sb.Available() == old(t.sb.Available()) - FirstBlocks(kind))
    ensures dir != null ==> (ret == -EEXIST <==> FindUsed(es, name) < |es|) && t.Cached(dir) && dir.d.kind == I_DIR
    ensures dir != null ==> t.FsckSave(dir.nr) && (!t.Fsck() ==> Dangling(t, dir))
    ensures ret == -EEXIST ==>
              && Files(t, torn) && t.sb.disk == old(t.sb.disk) && t.ino == old(t.ino) && t.owner == old(t.owner)
              && t.sb.Available() == old(t.sb.Available())
              && t.sb.live == old(t.sb.live)
    ensures ret == -EEXIST && dir != null ==> dir.dirty == old(dir.dirty) && dir.d == old(dir.d)
    // when it runs out of space, what it takes, and when it loses the ownership invariant
    ensures dir != null && ret != -EEXIST ==>
              && (ret == -ENOSPC <==>
                  CreateFills(old(t.sb.disk), old(dir.d), old(t.sb.Available()), old(t.sb.live), es, kind, |name|))
              && (t.Fsck() <==> !CreateStrands(old(dir.d), old(t.sb.Available()), old(t.sb.live), es, kind, |name|))
              && (t.Fsck() ==> Files(t, if ret == -ENOSPC then torn + {dir.nr} else torn))
              && (ret == -ENOSPC ==> HasLog(t.sb.disk, t.ino, dir.nr, es))
              && (ret == -ENOSPC ==>
                    (dir.dirty <==>
                       old(dir.dirty) || TakesSome(old(t.sb.live), old(t.sb.Available()), kind)))
              && (ret != -ENOSPC ==> t.Fsck())
              && (ret == 0 ==>
                    t.sb.Available() == old(t.sb.Available()) -
                      CreateNeeds(old(t.sb.disk), old(dir.d), es, kind, |name|))
    ensures dir != null && InReach(Add(es, Dirent(0, name))) ==> ret != -EFBIG
    // every other file keeps its content, whatever the outcome
    ensures Kept(old(t.sb.disk), old(t.ino), t.sb.disk, t.ino,
                 if dir == null then old(t.sb.live) else old(t.sb.live) - {dir.nr})
    ensures ret < 0 ==> t.sb.live == old(t.sb.live)
    ensures ret == 0 ==>
              && LowestFree(old(t.sb.live), nr) && t.sb.live == old(t.sb.live) + {nr}
              && nr < |t.ino| && t.ino[nr].kind == kind && (kind == I_FILE ==> t.ino[nr] == NoInode().(kind := I_FILE))
              && HasLog(t.sb.disk, t.ino, nr, FirstLog(kind, nr, if dir == null then nr else dir.nr))
    ensures ret == 0 && dir != null ==> !dir.dirty
    ensures ret == 0 && dir != null && InReach(Add(es, Dirent(0, name))) ==>
              HasLog(t.sb.disk, t.ino, dir.nr, Add(es, Dirent(nr, name)))
    ensures dir != null && !InReach(Add(es, Dirent(0, name))) && ret in {0, -EFBIG} ==>
              PastReach(t.sb.disk, t.ino, dir.nr, es, Dirent(nr, name), old(dir.d).size, ret < 0)
  {
    hide InodeTable.Valid, HasLog, EncodeLog, FsckBut, Own, Inodes, OthersSame, MaxFile, Settled, FileOk, Tight, Add,
         Fits, InReach, FirstLog, Content, AddMeets, AddFills, AddNeeds, AddStrands, SuperBlock.Available, NoInode,
         TableFull, Solid, Kept, PastReach;
    ghost var disk, ino, live, table := t.sb.disk, t.ino, t.sb.live, t.table;
    nr := 0;
    LiveTorn(t, torn);
    if dir != null {
      FilesFsck(t, dir.nr, torn);
      ret := DirNameToInodeNr(t, dir, name, es);
      if ret >= 0 {
        KeptSelf(disk, ino, live - {dir.nr});
        return -EEXIST, nr;
      }
    }
    var node;
    ret, node := CreateUnnamed(t, if dir == null then None else Some(dir.nr), kind, torn);
    ghost var disk1, ino1 := t.sb.disk, t.ino;
    FilesFsck(t, if dir == null then 0 else dir.nr, torn);
    if dir != null {
      StillCached(t, dir);
      KeptLog(disk, ino, disk1, ino1, live, dir.nr, es);
      KeptSome(disk, ino, disk1, ino1, live, live - {dir.nr});
    }
    if ret < 0 {
      if dir != null { FilesTorn(t, torn, torn + {dir.nr}); }
      return;
    }
    nr := node.nr;
    NumberFits(t, node);
    AddSize(es, nr, name);
    if dir != null { AddSame(disk, ino, disk1, ino1, nr, dir.nr, t.sb.Available(), es, |name|); }
    ret := LinkAndSave(t, dir, node, name, es, FirstLog(kind, nr, if dir == null then nr else dir.nr), live, torn);
    KeptThen(disk, ino, disk1, ino1, t.sb.disk, t.ino, if dir == null then live else live - {dir.nr});
    assert t.table == table;
  }

  // ---- cmd_rm ----

  /** Removes the inode whose record has just been freed, and saves the directory
      (fs/dir.c:420-422). The result tells whether the program gets past the assertion of
      testfs_remove_inode. */
  method RemoveNamed(t: InodeTable, dir: Inode, nr: nat, ghost es: seq<Dirent>, ghost torn: set<nat>)
    returns (passed: bool)
    requires t.Cached(dir) && nr != dir.nr && nr in t.sb.live && nr !in t.table && nr < NR_INODES == |t.ino|
    requires HasLog(t.sb.disk, t.ino, dir.nr, es) && dir.d.kind == I_DIR && dir.nr in t.sb.live
    requires t.Valid() && Files(t, torn)
    modifies t`table, t`ino, t`owner, t.sb, t.sb.blockFreemap.v, t.sb.inodeFreemap.v, dir`dirty
    ensures t.Valid() && (passed <==> old(Tight(t.sb.disk, t.ino[nr])))
    ensures passed ==>
              && Files(t, torn - {nr}) && t.table == old(t.table) && t.Cached(dir) && !dir.dirty
              && t.sb.live == old(t.sb.live) - {nr}
              && HasLog(t.sb.disk, t.ino, dir.nr, es)
              && Kept(old(t.sb.disk), old(t.ino), t.sb.disk, t.ino, old(t.sb.live) - {nr})
              && t.sb.Available() == old(t.sb.Available()) + old(t.ino)[nr].blockCount
  {
    hide InodeTable.Valid, HasLog, EncodeLog, FsckBut, Own, Inodes, OthersSame, MaxFile, Settled, Tight, NoInode,
         ZeroBeyond, Solid;
    ghost var disk, ino, live, table := t.sb.disk, t.ino, t.sb.live, t.table;
    LiveFile(t, nr, torn);
    FsckSized(t);
    FsckIsSave(disk, ino, t.owner, -1);
    var node := t.GetInode(nr);
    StillCached(t, dir);
    passed := RemoveInode(t, node, -1);
    if !passed {
      return;
    }
    FsckIsSave(t.sb.disk, t.ino, t.owner, -1);
    InodesRemove(disk, ino, live, torn, t.sb.disk, t.ino, nr);
    KeptOthers(disk, ino, t.sb.disk, t.ino, nr, live - {nr});
    KeptLog(disk, ino, t.sb.disk, t.ino, live - {nr}, dir.nr, es);
    StillCached(t, dir);
    ghost var disk1 := t.sb.disk;
    DiskSize(t);
    t.SyncInode(dir);
    FilesSameData(disk1, t.ino, t.owner, t.sb.live, torn - {nr}, t.sb.disk);
    FsckIsSave(disk1, t.ino, t.owner, -1);
    SavedKeeps(disk1, t.ino, t.owner, -1, t.sb.disk, live - {nr});
    KeptLog(disk1, t.ino, t.sb.disk, t.ino, live - {nr}, dir.nr, es);
    KeptThen(disk, ino, disk1, t.ino, t.sb.disk, t.ino, live - {nr});
    assert t.table == table;
  }
}
