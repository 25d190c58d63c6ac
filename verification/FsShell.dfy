/** fs/dir.c, fs/file.c and fs/testfs.c: the commands, and what every run of them keeps. */
module FsShell {
  import opened FsLayout
  import opened FsCodec
  import opened FsBitmap
  import opened FsOwnership
  import opened FsSuper
  import opened FsInode
  import opened FsAllocate
  import opened FsBytes
  import opened FsSpace
  import opened FsReadWrite
  import opened FsFree
  import opened FsFiles
  import opened FsDirLog
  import opened FsDirectory
  import opened FsEntries
  import opened FsOrder
  import opened FsCommands
  import T = FsTree

  // ---- a test that the program does not make ----

  /** Whether i_indirect names a block that the freemap holds free. The program does not
      look; the runs below do, to tell where they lose the ownership invariant. */
  method NamesFreeBlock(t: InodeTable, node: Inode) returns (free: bool)
    requires t.Cached(node)
    requires t.Valid() && t.FsckSave(node.nr) && (!t.Fsck() ==> Dangling(t, node))
    ensures free <==> !t.Fsck()
  {
    hide FsckBut, GetInt, SetBits, Freemaps, EncodeSuper, Accounts, InodeTable.Coherent;
    if node.d.indirect == 0 {
      return false;
    }
    assert Ptr(t.sb.disk, node.d, Single) == node.d.indirect;
    assert Own(t.sb.disk, t.ino[node.nr], node.nr, t.owner);
    var index := node.d.indirect - DATA_BLOCKS_START;
    var inUse := t.sb.blockFreemap.IsSet(index);
    BitOfBlock(t.sb, node.d.indirect);
    if t.Fsck() { RecordedAt(t.sb.disk, t.ino, t.owner, node.nr, Single); }
    free := !inUse;
  }

  lemma BitOfBlock(sb: SuperBlock, b: int)
    requires sb.Valid() && DATA_BLOCKS_START <= b < DEVICE_BLOCKS
    ensures b in sb.used <==> b - DATA_BLOCKS_START in sb.blockFreemap.Marked()
  {
    hide SetBits, Freemaps, EncodeSuper;
  }

  // ---- files ----

  /** Writes to a file, saves its inode and drops it (fs/file.c:111-113). `sound` tells
      whether the ownership invariant holds after it. */
  method WriteSaved(t: InodeTable, node: Inode, data: Bytes, start: nat, ghost torn: set<nat>)
    returns (ret: int, sound: bool, ghost done: nat)
    requires && t.Cached(node) && node.count == 1 && node.nr in t.sb.live && node.d.kind != I_DIR
             && 0 < |data| < 0x8000_0000
    requires t.Valid() && Files(t, torn)
    modifies t`table, t`ino, t`owner, t.sb, t.sb.blockFreemap.v, node
    ensures t.Valid() && t.table == old(t.table) - {node.nr} && t.sb.live == old(t.sb.live) && Settled(t.owner)
    ensures Kept(old(t.sb.disk), old(t.ino), t.sb.disk, t.ino, old(t.sb.live) - {node.nr})
    ensures node.nr < |t.ino| == |old(t.ino)| && t.ino[node.nr].kind == old(t.ino)[node.nr].kind
    ensures (sound <==> t.Fsck()) && (sound <==> !StrandsWrite(old(node.d), old(t.sb.Available()), start, |data|))
    ensures var full := Fills(old(t.sb.disk), old(node.d), old(t.sb.Available()), start, |data|);
            && (sound ==> Files(t, Torn(torn, t.sb.disk, t.ino[node.nr], node.nr))) && (!full ==> sound)
            && WriteLeaves(old(t.sb.disk), old(t.ino), old(t.sb.Available()), t.sb.disk, t.ino, t.sb.Available(),
                           node.nr, start, data, done, ret)
  {
    hide InodeTable.Valid, FsckBut, Own, Inodes, OthersSame, MaxFile, Tight, ZeroBeyond, BytesUpdated, Content,
         BlockNr, LastBlock, SuperBlock.Available, StrandsFrom, Stores, Kept, Fills, WriteNeeds, WriteMaps,
         StoredLength, WriteOutcome, Settled, Spills, GapZero, Torn;
    ghost var disk, ino, live, n, available := t.sb.disk, t.ino, t.sb.live, node.nr, t.sb.Available();
    LiveFile(t, n, torn);
    FsckSized(t);
    DiskSize(t);
    ret, done := WriteData(t, node, data, start);
    ghost var disk1, ino1, available1 := t.sb.disk, t.ino, t.sb.Available();
    KeptOthers(disk, ino, disk1, ino1, n, live - {n});
    OthersIndex(disk, ino, disk1, ino1, n);
    NothingNew(old(t.owner), t.owner);
    FileWritten(disk, ino, live, torn, available, disk1, ino1, available1, n, start, data, ret, done);
    FileLeft(disk, ino, available, disk1, ino1, available1, n, start, data, done, ret);
    var free := NamesFreeBlock(t, node);
    sound := !free;
    DiskSize(t);
    t.SyncInode(node);
    SavedKeeps(disk1, ino1, t.owner, n, t.sb.disk, live);
    KeptSome(disk1, ino1, t.sb.disk, ino1, live, live - {n});
    KeptThen(disk, ino, disk1, ino1, t.sb.disk, ino1, live - {n});
    LeavesSaved(disk, ino, available, disk1, ino1, available1, t.owner, t.sb.disk, n, start, data, done, ret);
    if sound {
      ghost var torn1 := if Fills(disk, ino[n], available, start, |data|) then torn + {n} else torn;
      FilesSameData(disk1, ino1, t.owner, live, torn1, t.sb.disk);
      InodesTorn(t.sb.disk, ino1, live, torn1, n);
      TornAgain(torn, t.sb.disk, ino1[n], n);
    } else {
      DanglingBreaks(t, node);
    }
    assert t.sb.Available() == available1;
    t.PutInode(node);
  }

  lemma TornAgain(torn: set<nat>, disk: Disk, d: Dinode, n: nat)
    ensures Torn(torn + {n}, disk, d, n) == Torn(torn, disk, d, n)
  {
    hide Whole;
  }

  lemma NothingNew(owner: Owners, owner': Owners)
    requires Settled(owner) && NoNewLoose(owner, owner')
    ensures Settled(owner')
  {}

  // ---- testfs_pwd ----

  lemma InOrderUp(t: InodeTable, torn: set<nat>, logs: Logs, s: T.Shape, d: nat)
    requires InOrder(t.sb.disk, t.ino, t.owner, t.sb.live, torn, logs, s) && d in logs
    ensures && t.Fsck() && |t.ino| == NR_INODES && d in t.sb.live && UpFrom(logs, s, d)
            && T.Tree(t.sb.live, Meaning(logs), s)
    ensures forall m | m == d || m == T.ParentOf(s, d) ::
              && m in logs && m < |t.ino| && t.ino[m].kind == I_DIR
              && HasLog(t.sb.disk, t.ino, m, logs[m]) && LogOk(logs[m])
  {
    hide InOrder, Logged, HasLog, T.Tree, Meaning, FsckBut, Inodes, Unique, Fits, OnlyRecord;
    InOrderFiles(t, torn, logs, s);
    InOrderLog(t.sb.disk, t.ino, t.owner, t.sb.live, torn, logs, s, d);
    if T.ParentOf(s, d) in logs { InOrderLog(t.sb.disk, t.ino, t.owner, t.sb.live, torn, logs, s, T.ParentOf(s, d)); }
    Above(t.sb.live, logs, s, d);
    forall m | m == d || m == T.ParentOf(s, d)
      ensures && m in logs && m < |t.ino| && t.ino[m].kind == I_DIR && HasLog(t.sb.disk, t.ino, m, logs[m])
              && LogOk(logs[m])
    {
      LogOf(t.sb.disk, t.ino, t.sb.live, logs, m);
      LogStart(t.sb.disk, t.ino, m, logs[m]);
    }
  }

  /** The directory above, fetched, and the name it has for this one; null at the root. */
  method FetchParent(t: InodeTable, node: Inode, ghost torn: set<nat>, ghost logs: Logs, ghost s: T.Shape)
    returns (dir: Inode?, name: Bytes)
    requires t.Cached(node) && node.nr in logs
    requires t.Valid() && InOrder(t.sb.disk, t.ino, t.owner, t.sb.live, torn, logs, s)
    modifies t`table, t.Held(T.ParentOf(s, node.nr))`count
    ensures t.Valid() && (dir == null <==> node.nr == 0) && (dir == null ==> t.table == old(t.table))
    ensures dir == null ==> forall m :: m in t.table ==> t.table[m].count == old(t.table[m].count)
    ensures dir != null ==>
              var up := T.ParentOf(s, node.nr);
              && t.Cached(dir) && dir.nr == up && up in logs && Depth(s, up) < Depth(s, node.nr)
              && t.table == old(t.table)[up := dir] && node.nr in s.home && name == s.home[node.nr].name
              && (up in old(t.table) ==> dir == old(t.table[up]) && dir.count == old(t.table[up].count) + 1)
              && (up in old(t.table) ==> dir.dirty == old(t.table[up].dirty))
              && (up !in old(t.table) ==> fresh(dir) && dir.count == 1 && !dir.dirty)
  {
    hide InodeTable.Valid, InOrder, HasLog, T.Tree, Meaning, FsckBut, FindUsed;
    ghost var up := T.ParentOf(s, node.nr);
    InOrderUp(t, torn, logs, s, node.nr);
    var parent := DirNameToInodeNr(t, node, DOTDOT, logs[node.nr]);
    if parent == node.nr {
      return null, [];
    }
    dir := t.GetInode(parent);
    var e := FindDirent(t, dir, node.nr, logs[up]);
    name := e.value.name;
  }

  /** testfs_pwd: the names printed are the path of the directory; the result is 1 for
      the root. References taken on the way up are returned: the inodes above are not
      changed, so the assertion of testfs_put_inode holds. */
  method Pwd(t: InodeTable, node: Inode, ghost torn: set<nat>, ghost logs: Logs, ghost s: T.Shape)
    returns (ret: int, path: seq<Bytes>)
    requires t.Cached(node) && node.nr in logs
    requires forall m :: m in t.table && t.table[m].dirty ==> Depth(s, node.nr) <= Depth(s, m)
    requires t.Valid() && InOrder(t.sb.disk, t.ino, t.owner, t.sb.live, torn, logs, s)
    modifies t`table, t.table.Values`count
    ensures t.Valid() && t.table == old(t.table) && forall m :: m in t.table ==>
              t.table[m].count == old(t.table[m].count)
    ensures node.nr in t.sb.live && T.Tree(t.sb.live, Meaning(logs), s)
    ensures path == T.PathOf(t.sb.live, Meaning(logs), s, node.nr)
    ensures ret == if node.nr == 0 then 1 else 0
    decreases Depth(s, node.nr)
  {
    hide InodeTable.Valid, InOrder, T.Tree, Meaning, UpFrom, HasLog, InodeTable.Fsck;
    TableNumbers(t);
    InOrderUp(t, torn, logs, s, node.nr);
    var dir, name := FetchParent(t, node, torn, logs, s);
    if dir == null {
      return 1, [];
    }
    ret, path := Pwd(t, dir, torn, logs, s);
    t.PutInode(dir);
    path := path + [name];
    ret := 0;
  }

  /** A whole file has nothing but zeros behind its end. */
  lemma WholeGap(t: InodeTable, n: nat, torn: set<nat>, start: nat)
    requires Files(t, torn) && n in t.sb.live
    ensures n < |t.ino| && (n !in torn ==> GapZero(t.sb.disk, t.ino[n], start))
  {
    LiveFile(t, n, torn);
    hide FileByte, Tight, Files;
  }

  // ---- commands ----

  class Shell {
    const t: InodeTable
    var cur: Inode
    ghost var logs: Logs
    ghost var shape: T.Shape
    /** the inodes that are not whole */
    ghost var torn: set<nat>

    /** What holds between commands, whether they have failed or not: the file system is
        in order, and the current directory is a live one and the only inode in memory. */
    ghost predicate Inv()
      reads this, cur, t, t.sb, t.sb.inodeFreemap.v, t.sb.blockFreemap.v, t.table.Values
    {
      && t.Valid() && Alone() && cur.nr in logs
      && InOrder(t.sb.disk, t.ino, t.owner, t.sb.live, torn, logs, shape)
    }

    /** The state of the file system as a value. */
    ghost function Now(): State
      reads this, cur, t, t.sb
    {
      State(t.sb.disk, t.ino, t.owner, t.sb.live, t.sb.Available(), torn, logs, shape, cur.nr, cur.d, cur.dirty)
    }

    /** main: the root is the first current directory. */
    constructor (t: InodeTable, ghost torn: set<nat>, ghost logs: Logs, ghost shape: T.Shape)
      requires t.Valid() && t.table == map[]
      requires InOrder(t.sb.disk, t.ino, t.owner, t.sb.live, torn, logs, shape)
      modifies t`table
      ensures Inv() && this.t == t && cur.nr == 0 && !cur.dirty && fresh(cur)
      ensures this.torn == torn && this.logs == logs && this.shape == shape
    {
      hide InodeTable.Valid, InOrder, Files, Logged, T.Tree;
      InOrderFiles(t, torn, logs, shape);
      var root := t.GetInode(0);
      this.t := t;
      this.torn := torn;
      this.logs := logs;
      this.shape := shape;
      cur := root;
    }

    /** The inode a name in the current directory stands for. */
    method Lookup(name: Bytes) returns (ret: int)
      requires Inv()
      ensures ret == if name in NamesIn(logs, cur.nr) then NamesIn(logs, cur.nr)[name] else -ENOENT
      ensures ret >= 0 ==> ret as nat in t.sb.live && ret < |t.ino| == NR_INODES
      ensures name in NamesIn(logs, cur.nr) ==> ret >= 0
    {
      hide InodeTable.Valid, InOrder, Logged, HasLog, T.Tree, Meaning, NamesIn, FsckBut, Settled, Inodes;
      InOrderFiles(t, torn, logs, shape);
      StillCached(t, cur);
      LogOf(t.sb.disk, t.ino, t.sb.live, logs, cur.nr);
      Look(logs, cur.nr, name);
      if name in NamesIn(logs, cur.nr) { NamedLive(t.sb.live, logs, shape, cur.nr, name); }
      ret := DirNameToInodeNr(t, cur, name, logs[cur.nr]);
    }

    /** The current directory is the only inode in memory. A failed command may have left
        it with unsaved changes. */
    ghost predicate Alone()
      reads this, cur, t
    {
      t.table == map[cur.nr := cur] && cur.count == 1
    }

    /** Makes an inode the current one if it is a directory (fs/dir.c:354-361). */
    method Enter(nr: nat) returns (ret: int, passed: bool)
      requires Alone() && nr < NR_INODES == |t.ino|
      requires t.Valid()
      modifies this`cur, t`table, cur`count
      ensures t.Valid() && ret == if t.ino[nr].kind == I_DIR then 0 else -ENOTDIR
      ensures passed <==> !(old(cur.dirty) && (ret == 0 || nr == old(cur.nr)))
      ensures passed ==> Alone() && cur.nr == (if ret == 0 then nr else old(cur.nr)) && (ret == 0 ==> !cur.dirty)
      ensures cur == old(cur) || fresh(cur)
      ensures passed && ret < 0 ==> cur == old(cur) && cur.dirty == old(cur.dirty)
    {
      hide InodeTable.Valid;
      var dir := t.GetInode(nr);
      if dir.d.kind != I_DIR {
        if dir.dirty {
          return -ENOTDIR, false;
        }
        t.PutInode(dir);
        assert t.table == map[cur.nr := cur];
        return -ENOTDIR, true;
      }
      if cur.dirty {
        return 0, false;
      }
      if cur.nr == nr {
        assert dir == cur;
      }
      StillCached(t, cur);
      t.PutInode(cur);
      cur := dir;
      assert t.table == map[cur.nr := cur];
      return 0, true;
    }

    /** cmd_cd */
    method Cd(name: Bytes) returns (ret: int, passed: bool)
      requires Inv()
      modifies this`cur, t`table, cur`count
      ensures t.Valid() && (cur == old(cur) || fresh(cur))
      ensures var names := Here(old(Now()));
              ret == (if name !in names then -ENOENT else if names[name] !in old(logs) then -ENOTDIR else 0)
      ensures passed <==> !(ret == 0 && old(cur.dirty))
      ensures passed ==> Inv() && CdStep(old(Now()), name, Now())
    {
      hide InodeTable.Valid, InOrder, Logged, HasLog, T.Tree, Meaning, NamesIn;
      ret := Lookup(name);
      if ret < 0 {
        return ret, true;
      }
      InOrderFiles(t, torn, logs, shape);
      LogOf(t.sb.disk, t.ino, t.sb.live, logs, ret);
      LogOf(t.sb.disk, t.ino, t.sb.live, logs, cur.nr);
      ret, passed := Enter(ret);
      if passed { StillCached(t, cur); }
    }

    /** cmd_create and cmd_mkdir: the command finds the name in use and changes nothing, or
        runs out of space, or makes the lowest free inode and enters it. `sound` tells
        whether the ownership invariant holds after it. */
    method Create(kind: int, name: Bytes) returns (ret: int, sound: bool)
      requires kind == I_FILE || kind == I_DIR
      requires EntryOk(Dirent(0, name))
      requires Inv()
      modifies this`logs, this`shape, this`torn, t, t.sb, t.sb.inodeFreemap.v, t.sb.blockFreemap.v, cur`d, cur`dirty
      ensures t.Valid() && cur == old(cur)
      ensures ret in {0, -EEXIST, -EFBIG, -ENOSPC}
      ensures ret == -EEXIST <==> name in Here(old(Now()))
      ensures ret != -EEXIST ==> (ret == -ENOSPC <==> NewFills(old(Now()), kind, name))
      ensures (sound <==> t.Fsck()) && (sound <==> !NewStrands(old(Now()), kind, name))
      ensures !sound ==> ret == -ENOSPC
      ensures HasRoom(old(Now()), name) ==> ret != -EFBIG
      ensures ret in {-EEXIST, -ENOSPC} || HasRoom(old(Now()), name) ==>
                (sound ==> Inv()) && NewStep(old(Now()), kind, name, Now())
      // where the directory has no room; positive EFBIG ends as success
      ensures ret in {0, -EFBIG} && !HasRoom(old(Now()), name) ==>
                exists nr: nat :: NewPast(old(Now()), kind, name, nr, Now())
      ensures ret == -EFBIG ==> t.sb.live == old(t.sb.live)
    {
      hide InodeTable.Valid, InOrder, Logged, HasLog, T.Tree, Meaning, FsckBut, Settled, Inodes, Names, Unique, Add,
           MaxFile, EncodeLog, Kept, CreatedLogs, FirstLog, CreateFills, CreateStrands, CreateNeeds,
           SuperBlock.Available, NoInode, Fits, Torn, TakesSome, T.WithPlace, LowestFree;
      ghost var s, n := Now(), cur.nr;
      InOrderFiles(t, torn, logs, shape);
      StillCached(t, cur);
      LogOf(s.disk, s.ino, s.live, logs, n);
      Look(logs, n, name);
      RoomReach(logs[n], name);
      ghost var nr;
      ret, nr := CreateFileOrDir(t, cur, kind, name, logs[n], torn);
      assert t.table == old(t.table);
      sound := true;
      if ret == -ENOSPC {
        sound := OutOfSpace(s);
      } else if ret == 0 && Room(logs[n], name) {
        Enters(s, kind, name, nr);
      } else if ret != -EEXIST && !Room(logs[n], name) {
        AddSize(logs[n], nr, name);
        assert NewPast(s, kind, name, nr, Now());
      }
    }

    /** After a creation without space: whether the ownership invariant holds. */
    method OutOfSpace(ghost s: State) returns (sound: bool)
      requires Alone() && t.Cached(cur) && cur.d.kind == I_DIR && logs == s.logs && shape == s.shape && torn == s.torn
      requires Ordered(s) && cur.nr == s.nr && t.sb.live == s.live
      requires HasLog(t.sb.disk, t.ino, cur.nr, logs[cur.nr])
      requires Kept(s.disk, s.ino, t.sb.disk, t.ino, s.live - {s.nr})
      requires t.Valid() && t.FsckSave(cur.nr) && Settled(t.owner) && (!t.Fsck() ==> Dangling(t, cur))
      requires t.Fsck() ==> Files(t, torn + {cur.nr})
      modifies this`torn
      ensures sound <==> t.Fsck()
      ensures torn == Torn(s.torn, t.sb.disk, cur.d, s.nr) && (sound ==> Inv())
    {
      hide InodeTable.Valid, InOrder, Logged, HasLog, T.Tree, Meaning, FsckBut, Settled, Inodes, Kept, Torn, Fits,
           Unique;
      ghost var n := cur.nr;
      var free := NamesFreeBlock(t, cur);
      sound := !free;
      TornAgain(torn, t.sb.disk, t.ino[n], n);
      if sound {
        FullInOrder(s.disk, s.ino, s.owner, s.live, torn, logs, shape, t.sb.disk, t.ino, t.owner, torn + {n}, n);
        InOrderFiles(t, torn + {n}, logs, shape);
        LogOf(t.sb.disk, t.ino, t.sb.live, logs, n);
        TornInOrder(t.sb.disk, t.ino, t.owner, s.live, torn + {n}, logs, shape, n);
      }
      torn := Torn(torn, t.sb.disk, t.ino[n], n);
    }

    /** The new inode has its place in the logs and in the tree. */
    ghost method Enters(s: State, kind: int, name: Bytes, nr: nat)
      requires Alone() && t.Cached(cur) && cur.d.kind == I_DIR && logs == s.logs && shape == s.shape && torn == s.torn
      requires Ordered(s) && cur.nr == s.nr && t.sb.live == s.live + {nr} && LowestFree(s.live, nr) && nr < |t.ino|
      requires EntryOk(Dirent(0, name)) && name !in Here(s) && Room(logs[s.nr], name)
      requires (kind == I_FILE || kind == I_DIR) && t.ino[nr].kind == kind
      requires kind == I_FILE ==> t.ino[nr] == NoInode().(kind := I_FILE)
      requires HasLog(t.sb.disk, t.ino, cur.nr, FsDirLog.Add(logs[cur.nr], Dirent(nr, name)))
      requires HasLog(t.sb.disk, t.ino, nr, FirstLog(kind, nr, cur.nr))
      requires Kept(s.disk, s.ino, t.sb.disk, t.ino, s.live - {s.nr})
      requires t.Valid() && Files(t, torn)
      modifies this`logs, this`shape
      ensures Inv() && Makes(s, kind, name, nr, Now())
    {
      hide InodeTable.Valid, InOrder, Logged, HasLog, T.Tree, Meaning, FsckBut, Settled, Inodes, Names, Unique, Add,
           MaxFile, EncodeLog, Kept, CreatedLogs, FirstLog, SuperBlock.Available, NoInode, Fits, T.WithPlace;
      ghost var n := cur.nr;
      InOrderLog(s.disk, s.ino, s.owner, s.live, torn, logs, shape, n);
      Look(logs, n, name);
      CreatedInOrder(s.disk, s.ino, s.owner, s.live, torn, logs, shape, t.sb.disk, t.ino, t.owner, n, kind, name, nr);
      logs := CreatedLogs(logs, n, kind, name, nr);
      shape := T.WithPlace(shape, n, name, nr);
    }

    /** Whether the current directory has room for the record of a new name. The program does
        not look; the runs below do, to tell where they come to that limit. */
    method FindsRoom(name: Bytes) returns (room: bool)
      requires Inv() && EntryOk(Dirent(0, name))
      ensures name !in Here(Now()) ==> (room <==> HasRoom(Now(), name))
    {
      hide InodeTable.Valid, InOrder, Logged, HasLog, T.Tree, Meaning, FsckBut, Settled, Inodes, Names, Unique, Add,
           MaxFile, EncodeLog, EncodeEntry;
      InOrderFiles(t, torn, logs, shape);
      StillCached(t, cur);
      InOrderLog(t.sb.disk, t.ino, t.owner, t.sb.live, torn, logs, shape, cur.nr);
      LogOf(t.sb.disk, t.ino, t.sb.live, logs, cur.nr);
      Look(logs, cur.nr, name);
      var ret, found, pOffset;
      ghost var k;
      ret, found, pOffset, k := ScanDirents(t, cur, name, logs[cur.nr]);
      if ret == 0 { AddedEnd(logs[cur.nr], Dirent(0, name), k); }
      var end := pOffset + |name| + 9;
      room := found || (end <= MaxFile() && end < 0x8000_0000);
    }

    /** cmd_rm. It takes no block, so it never runs out of space. `passed` tells whether the
        program gets past the assertion of testfs_remove_inode, as it does exactly if
        testfs_free_blocks finds all blocks of the file. */
    method Rm(name: Bytes) returns (ret: int, passed: bool)
      requires Inv()
      modifies this`logs, this`shape, this`torn, t, t.sb, t.sb.inodeFreemap.v, t.sb.blockFreemap.v, cur`d, cur`dirty
      ensures t.Valid() && cur == old(cur)
      ensures passed <==> !RemovesLoose(old(Now()), name)
      ensures passed ==> Inv() && ret == RmRefusal(old(logs), cur.nr, name) && RmStep(old(Now()), name, Now())
      // the refusals in terms of names: dots, unknown names, and directories that hold another name
      ensures passed ==>
                var names := Here(old(Now()));
                && ret in {0, -EINVAL, -ENOENT, -ENOTEMPTY}
                && (ret == -EINVAL <==> T.IsDot(name))
                && (ret == -ENOENT <==> !T.IsDot(name) && name !in names)
                && (ret == -ENOTEMPTY <==> !T.IsDot(name) && name in names && Populated(old(logs), names[name]))
                && (ret == 0 <==> !T.IsDot(name) && name in names && !Populated(old(logs), names[name]))
    {
      hide InodeTable.Valid, InOrder, Logged, HasLog, T.Tree, Meaning, FsckBut, Settled, Inodes, Names, Unique,
           EncodeLog, Kept, LogAt, Sense, Remove, RemovedLogs, Bare, OthersSame, Tight, RmRefusal, NamesIn,
           SuperBlock.Available, T.WithoutPlace, Populated;
      RmRefusalMeans(t.sb.disk, t.ino, t.owner, t.sb.live, torn, logs, shape, cur.nr, name);
      ghost var s, disk, ino, live, d := Now(), t.sb.disk, t.ino, t.sb.live, cur.nr;
      InOrderFiles(t, torn, logs, shape);
      StillCached(t, cur);
      LogOf(disk, ino, live, logs, d);
      ghost var sub := RmTarget(t, torn, logs, shape, d, name);
      ret := RemoveDirent(t, cur, name, logs[d], sub, torn);
      if ret < 0 {
        SameInOrder(disk, ino, s.owner, live, torn, logs, shape, t.sb.disk, t.ino, t.owner);
        return ret, true;
      }
      ghost var n, disk1, ino1, live1 := ret, t.sb.disk, t.ino, t.sb.live;
      TightOther(disk, ino, disk1, ino1, d, n);
      KeptOthers(disk, ino, disk1, ino1, d, live - {d, n});
      passed := RemoveNamed(t, cur, ret, Remove(logs[d], name), torn);
      if !passed {
        return;
      }
      KeptSome(disk1, ino1, t.sb.disk, t.ino, live1 - {n}, live - {d, n});
      KeptThen(disk, ino, disk1, ino1, t.sb.disk, t.ino, live - {d, n});
      Leaves(s, name, n);
      return 0, true;
    }

    /** The inode has lost its place in the logs and in the tree. */
    ghost method Leaves(s: State, name: Bytes, n: nat)
      requires Alone() && t.Cached(cur) && cur.d.kind == I_DIR && logs == s.logs && shape == s.shape && torn == s.torn
      requires Ordered(s) && cur.nr == s.nr && t.sb.live == s.live - {n} && !T.IsDot(name)
      requires name in Here(s) && Here(s)[name] == n && n != s.nr && (n in logs ==> Bare(logs[n]))
      requires HasLog(t.sb.disk, t.ino, cur.nr, FsDirLog.Remove(logs[cur.nr], name))
      requires Kept(s.disk, s.ino, t.sb.disk, t.ino, s.live - {s.nr, n})
      requires t.Valid() && Files(t, torn - {n})
      modifies this`logs, this`shape, this`torn
      ensures Inv() && logs == RemovedLogs(s.logs, s.nr, name, n) && shape == T.WithoutPlace(s.shape, n)
      ensures torn == s.torn - {n}
    {
      hide InodeTable.Valid, InOrder, Logged, HasLog, T.Tree, Meaning, FsckBut, Settled, Inodes, Names, Unique,
           EncodeLog, Kept, Sense, Remove, RemovedLogs, Bare, NamesIn, T.WithoutPlace;
      RemovedInOrder(s.disk, s.ino, s.owner, s.live, torn, logs, shape, t.sb.disk, t.ino, t.owner, s.nr, name, n);
      logs := RemovedLogs(logs, s.nr, name, n);
      shape := T.WithoutPlace(shape, n);
      torn := torn - {n};
    }

    /** testfs_get_file_inode */
    method GetFile(name: Bytes) returns (ret: int, node: Inode?, passed: bool)
      requires Inv()
      modifies t`table, cur`count
      ensures t.Valid() && ret == FileRefusal(Now(), name) && (passed <==> !NamesDirty(Now(), name))
      ensures ret < 0 && passed ==> Inv()
      ensures ret >= 0 ==>
                && passed && node != null && fresh(node) && t.Cached(node) && node.count == 1 && !node.dirty
                && node.nr != cur.nr
                && name in Here(Now()) && node.nr == Here(Now())[name] && node.nr in t.sb.live
                && t.table == map[cur.nr := cur, node.nr := node] && cur.count == 1
                && node.nr !in logs && node.nr < |t.ino| && node.d == t.ino[node.nr] && node.d.kind != I_DIR
    {
      hide InodeTable.Valid, InOrder, Logged, HasLog, T.Tree, Meaning, NamesIn, FsckBut, Settled, Inodes, LogAt,
           SuperBlock.Available;
      node := null;
      ret := Lookup(name);
      if ret < 0 {
        return ret, null, true;
      }
      ghost var nr: nat := ret;
      InOrderFiles(t, torn, logs, shape);
      LogOf(t.sb.disk, t.ino, t.sb.live, logs, nr);
      LogOf(t.sb.disk, t.ino, t.sb.live, logs, cur.nr);
      ret, node, passed := GetByNumber(ret);
    }

    /** The second half of testfs_get_file_inode (fs/file.c:24-31). */
    method GetByNumber(nr: nat) returns (ret: int, node: Inode?, passed: bool)
      requires Alone() && nr < NR_INODES == |t.ino| && cur.nr < |t.ino| && t.ino[cur.nr].kind == I_DIR
      requires t.Valid()
      modifies t`table, cur`count
      ensures t.Valid() && ret == if t.ino[nr].kind == I_DIR then -EISDIR else 0
      ensures passed <==> !(nr == cur.nr && cur.dirty)
      ensures ret < 0 && passed ==> Alone()
      ensures ret >= 0 ==>
                && node != null && fresh(node) && t.Cached(node) && node.count == 1 && !node.dirty
                && node.nr == nr != cur.nr
                && t.table == map[cur.nr := cur, nr := node] && cur.count == 1
    {
      hide InodeTable.Valid;
      node := t.GetInode(nr);
      if node.d.kind == I_DIR {
        if node.dirty {
          return -EISDIR, null, false;
        }
        t.PutInode(node);
        assert t.table == map[cur.nr := cur];
        return -EISDIR, null, true;
      }
      return 0, node, true;
    }

    /** cmd_write. What a write that runs out of space has stored stays in the file. */
    method Write(name: Bytes, start: nat, data: Bytes) returns (ret: int, end: End, ghost done: nat)
      requires Inv() && 0 < |data| < 0x8000_0000
      modifies this`torn, t, t.sb, t.sb.blockFreemap.v, cur`count
      ensures t.Valid() && cur == old(cur) && WriteStep(old(Now()), name, start, data, Now(), ret, done)
      ensures end != NoRoom && (end == Goes ==> Inv())
      ensures end == Stops <==> NamesDirty(old(Now()), name)
      ensures end == Broken <==> WriteStrands(old(Now()), name, start, |data|)
      ensures end == Broken ==> ret == -ENOSPC && !t.Fsck()
      // a file that is whole shows zeros where a write leaves a gap
      ensures ret != -EISDIR && ret != -ENOENT ==>
                var n := Here(old(Now()))[name];
                0 <= n < |old(t.ino)| && (n !in old(torn) ==> GapZero(old(t.sb.disk), old(t.ino)[n], start))
    {
      hide InodeTable.Valid, InOrder, Logged, HasLog, T.Tree, Meaning, NamesIn, Inodes, LogAt, Kept, FsckBut,
           WriteLeaves, Fills, Settled, StrandsWrite, SuperBlock.Available, Torn;
      ghost var disk, ino, owner, live := t.sb.disk, t.ino, t.owner, t.sb.live;
      InOrderFiles(t, torn, logs, shape);
      FsckSized(t);
      var node, passed;
      done := 0;
      ret, node, passed := GetFile(name);
      if ret < 0 {
        return ret, if passed then Goes else Stops, 0;
      }
      ghost var n, available := node.nr, t.sb.Available();
      WholeGap(t, n, torn, start);
      var sound;
      ret, sound, done := WriteSaved(t, node, data, start, torn);
      assert t.table == map[cur.nr := cur];
      ghost var torn' := Torn(torn, t.sb.disk, t.ino[n], n);
      if sound {
        FileWrittenInOrder(disk, ino, owner, live, torn, logs, shape, t.sb.disk, t.ino, t.owner, torn', n);
      } else {
        FullLeaves(disk, ino, available, t.sb.disk, t.ino, t.sb.Available(), n, start, data, done, ret);
      }
      torn := torn';
      end := if sound then Goes else Broken;
    }

    /** cmd_read: a range inside the file is printed as it was last stored, if its size fits
        an int. Nothing is printed otherwise. At the very end of a file of maximum size the
        call to testfs_read_data answers with positive EFBIG. */
    method Read(name: Bytes, start: nat, size: nat) returns (ret: int, out: Bytes, passed: bool)
      requires Inv() && start + size < 0x8000_0000_0000_0000
      modifies t`table, cur`count
      ensures t.Valid() && Now() == old(Now()) && (passed <==> !NamesDirty(Now(), name)) && (passed ==> Inv())
      ensures FileRefusal(Now(), name) != 0 ==> ret == FileRefusal(Now(), name) && out == []
      ensures FileRefusal(Now(), name) == 0 ==>
                var n := Here(Now())[name];
                && 0 <= n < |t.ino|
                && var c := Content(t.sb.disk, t.ino, n);
                   if start + size > |c| then ret == -EINVAL && out == []
                   else if start == MaxFile() then ret == EFBIG && out == []
                   else ret == Int32(size) && out == if Int32(size) >= 0 then c[start..start + size] else []
    {
      hide InodeTable.Valid, InOrder, Logged, HasLog, T.Tree, Meaning, NamesIn, Inodes, LogAt, Content, Kept, FsckBut,
           MaxFile, BlockNr, Slice, Tight, ZeroBeyond, Solid, Int32, SuperBlock.Available;
      InOrderFiles(t, torn, logs, shape);
      var node;
      out := [];
      ret, node, passed := GetFile(name);
      if ret < 0 {
        return;
      }
      LiveFile(t, node.nr, torn);
      ContentPart(t.sb.disk, t.ino, node.nr, 0, 0);
      if start + size > node.d.size {
        ret := -EINVAL;
      } else {
        BlockNrBelow(start);
        ContentPart(t.sb.disk, t.ino, node.nr, start, size);
        var data;
        ret, data := ReadData(t, node, start, size);
        if ret >= 0 { out := data; }
      }
      t.PutInode(node);
      assert t.table == map[cur.nr := cur];
    }

    /** cmd_pwd */
    method PrintDirectory() returns (path: seq<Bytes>)
      requires Inv()
      modifies t`table, cur`count
      ensures Inv() && Now() == old(Now())
      ensures cur.nr in t.sb.live && T.Tree(t.sb.live, Meaning(logs), shape)
      ensures path == T.PathOf(t.sb.live, Meaning(logs), shape, cur.nr)
      ensures T.Walk(Meaning(logs), 0, path) == cur.nr && forall k :: 0 <= k < |path| ==> !T.IsDot(path[k])
    {
      hide InodeTable.Valid, InOrder, T.Tree, Meaning;
      StillCached(t, cur);
      var ret;
      ret, path := Pwd(t, cur, torn, logs, shape);
      T.PathLeadsBack(t.sb.live, Meaning(logs), shape, cur.nr);
      T.PathLevels(t.sb.live, Meaning(logs), shape, cur.nr);
    }

    // ---- runs ----

    /** Runs one command, to success or to any of its failures. */
    method Execute(c: Command) returns (end: End)
      requires Inv() && WordsOk(c)
      modifies this, t, t.sb, t.sb.inodeFreemap.v, t.sb.blockFreemap.v, cur
      ensures t.Valid() && (cur == old(cur) || fresh(cur))
      ensures end == Goes ==> Inv() && GoesOn(old(Now()), c, Now())
      ensures end == Stops <==> StopsAt(old(Now()), c)
      ensures end == Broken <==> StrandsAt(old(Now()), c)
      ensures end == Broken ==> !t.Fsck()
      ensures (end == NoRoom <==> NoRoomAt(old(Now()), c)) && (end == NoRoom ==> Disordered(Now()))
    {
      hide InodeTable.Valid, InOrder, HasLog, T.Tree, Meaning, RmRefusal, NamesIn, InodeTable.Fsck, RemovesLoose,
           NewStrands, NewNoRoom, WriteStrands, SuperBlock.Available, NewStep, RmStep, WriteStep, CdStep;
      end := Goes;
      var ret := 0;
      var passed := true;
      match c {
        case CmdCd(name) =>
          ret, passed := Cd(name);
        case CmdCreate(name) =>
          end := Make(I_FILE, name);
        case CmdMkdir(name) =>
          end := Make(I_DIR, name);
        case CmdRm(name) =>
          ret, passed := Rm(name);
        case CmdWrite(name, start, data) =>
          ghost var done;
          ret, end, done := Write(name, start, data);
        case CmdRead(name, start, size) =>
          var out;
          ret, out, passed := Read(name, start, size);
        case CmdPwd =>
          var path := PrintDirectory();
      }
      if !passed {
        end := Stops;
      }
    }

    method Make(kind: int, name: Bytes) returns (end: End)
      requires kind == I_FILE || kind == I_DIR
      requires EntryOk(Dirent(0, name))
      requires Inv()
      modifies this`logs, this`shape, this`torn, t, t.sb, t.sb.inodeFreemap.v, t.sb.blockFreemap.v, cur`d, cur`dirty
      ensures t.Valid() && cur == old(cur) && end != Stops
      ensures end == Goes ==> Inv() && NewStep(old(Now()), kind, name, Now())
      ensures (end == Broken <==> NewStrands(old(Now()), kind, name)) && (end == Broken ==> !t.Fsck())
      ensures end == NoRoom <==> NewNoRoom(old(Now()), kind, name)
      ensures end == NoRoom ==> Disordered(Now())
    {
      hide InodeTable.Valid, InOrder, HasLog, T.Tree, Meaning, NamesIn, InodeTable.Fsck, NewFills, NewStrands, NewStep,
           HasRoom, SuperBlock.Available, NewPast, Disordered;
      ghost var s := Now();
      var room := FindsRoom(name);
      var ret, sound := Create(kind, name);
      end := if !sound then Broken else if !room && ret != -EEXIST && ret != -ENOSPC then NoRoom else Goes;
      if end == NoRoom {
        ghost var nr :| NewPast(s, kind, name, nr, Now());
        PastDisordered(s, kind, name, nr, Now());
      }
    }

    /** The command loop of main over any commands, failed ones included, up to the first
        one that does not end with the shell going on: the states between the commands are
        all in order, no block is lost, and each follows from the one before. */
    method Run(commands: seq<Command>) returns (executed: nat, end: End, ghost trace: seq<State>)
      requires Inv() && forall k :: 0 <= k < |commands| ==> WordsOk(commands[k])
      modifies this, t, t.sb, t.sb.inodeFreemap.v, t.sb.blockFreemap.v, cur
      ensures t.Valid() && executed <= |commands| && (cur == old(cur) || fresh(cur))
      ensures IsTrace(trace, commands[..executed]) && trace[0] == old(Now())
      ensures forall k :: 0 <= k <= executed ==>
                Ordered(trace[k]) && trace[k].available + |trace[k].owner.Keys| == t.sb.Capacity()
      ensures end == Goes ==> executed == |commands| && Inv() && trace[executed] == Now()
      ensures end != Goes ==>
                && executed < |commands|
                && (end == Stops <==> StopsAt(trace[executed], commands[executed]))
                && (end == Broken <==> StrandsAt(trace[executed], commands[executed]))
                && (end == NoRoom <==> NoRoomAt(trace[executed], commands[executed]))
      ensures end == Broken ==> !t.Fsck()
    {
      hide InodeTable.Valid, InOrder, InodeTable.Coherent, Shell.Alone, StopsAt, StrandsAt, NoRoomAt, InodeTable.Fsck,
           Step, SuperBlock.Available;
      executed := 0;
      end := Goes;
      trace := [Now()];
      BlocksLeft(t);
      while executed < |commands|
        invariant executed <= |commands| && Inv() && end == Goes
        invariant IsTrace(trace, commands[..executed]) && trace[0] == old(Now()) && trace[executed] == Now()
        invariant forall k :: 0 <= k <= executed ==>
                    Ordered(trace[k]) && trace[k].available + |trace[k].owner.Keys| == t.sb.Capacity()
        invariant cur == old(cur) || fresh(cur)
      {
        end := Execute(commands[executed]);
        if end != Goes {
          return;
        }
        BlocksLeft(t);
        trace := trace + [Now()];
        executed := executed + 1;
      }
    }
  }
}
