/** fs/dir.c, fs/file.c and fs/testfs.c: what every command does, in terms of the state
    before it, and what follows for runs of commands. */
module FsCommands {
  import opened FsLayout
  import opened Arith
  import opened FsCodec
  import opened FsBitmap
  import opened FsOwnership
  import opened FsAllocate
  import opened FsBytes
  import opened FsSpace
  import opened FsReadWrite
  import opened FsFiles
  import opened FsDirLog
  import opened FsDirectory
  import opened FsEntries
  import opened FsOrder
  import T = FsTree

  const EISDIR: int := 21

  datatype Command =
    | CmdCd(name: Bytes)
    | CmdCreate(name: Bytes)
    | CmdMkdir(name: Bytes)
    | CmdRm(name: Bytes)
    | CmdWrite(name: Bytes, start: nat, data: Bytes)
    | CmdRead(name: Bytes, start: nat, size: nat)
    | CmdPwd

  /** Words of a command line are not empty, hold no zero byte and are shorter than 2^31
      bytes; sums of offsets and sizes are 64-bit file offsets. */
  predicate WordsOk(c: Command) {
    match c
    case CmdCreate(name) => EntryOk(Dirent(0, name))
    case CmdMkdir(name) => EntryOk(Dirent(0, name))
    case CmdWrite(_, _, data) => 0 < |data| < 0x8000_0000
    case CmdRead(_, start, size) => start + size < 0x8000_0000_0000_0000
    case _ => true
  }

  /** How a command ends. Goes: the shell goes on. Stops: an assertion of the program
      stops it. Broken: a failed write has lost the ownership invariant. NoRoom: a
      directory has met the limit of file sizes or of 32-bit offsets. */
  datatype End = Goes | Stops | Broken | NoRoom

  /** The file system between two commands: the device, all inodes, who owns each block, the
      inodes in use, how many blocks are left, the inodes that are not whole, the logs and
      the tree; then the number of the current directory, its inode in memory, and
      whether it has unsaved changes. */
  datatype State = State(disk: Disk, ino: seq<Dinode>, owner: Owners, live: set<nat>, available: int, torn: set<nat>,
                         logs: Logs, shape: T.Shape, nr: nat, d: Dinode, dirty: bool)

  /** Everything is in order. */
  ghost predicate Ordered(s: State) {
    InOrder(s.disk, s.ino, s.owner, s.live, s.torn, s.logs, s.shape) && s.nr in s.logs
  }

  /** The names in the current directory. */
  ghost function Here(s: State): map<Bytes, int> { NamesIn(s.logs, s.nr) }

  // ---- creation ----

  /** What creating in the current directory comes to. */
  ghost predicate NewFills(s: State, kind: int, name: Bytes) {
    && |s.d.direct| == NR_DIRECT_BLOCKS && s.nr in s.logs
    && CreateFills(s.disk, s.d, s.available, s.live, s.logs[s.nr], kind, |name|)
  }

  ghost predicate NewStrands(s: State, kind: int, name: Bytes) {
    && s.nr in s.logs && name !in Here(s)
    && CreateStrands(s.d, s.available, s.live, s.logs[s.nr], kind, |name|)
  }

  ghost function NewNeeds(s: State, kind: int, name: Bytes): nat {
    if |s.d.direct| == NR_DIRECT_BLOCKS && s.nr in s.logs then CreateNeeds(s.disk, s.d, s.logs[s.nr], kind, |name|)
    else 0
  }

  ghost predicate HasRoom(s: State, name: Bytes) {
    s.nr in s.logs && Room(s.logs[s.nr], name)
  }

  /** The directory has no room for the record of a new name. */
  ghost predicate NewNoRoom(s: State, kind: int, name: Bytes) {
    name !in Here(s) && !NewFills(s, kind, name) && !HasRoom(s, name)
  }

  /** The size of a directory tells that there is room for one more record. */
  lemma SizeGivesRoom(disk: Disk, ino: seq<Dinode>, d: nat, es: seq<Dirent>, name: Bytes)
    requires HasLog(disk, ino, d, es) && EntryOk(Dirent(0, name))
    requires ino[d].size + |name| + 9 <= MaxFile() && ino[d].size + |name| + 9 < 0x8000_0000
    ensures Room(es, name)
  {
    var e := Dirent(0, name);
    ContentSize(disk, ino, d);
    AddedEnd(es, e, FindFree(es, |name|));
    OffsetEnd(es);
    hide EncodeEntry, Content, EncodeLog, MaxFile;
  }

  /** It runs out of space with a block already taken, so that the current directory is left
      with unsaved changes. */
  ghost predicate NewSpoils(s: State, kind: int, name: Bytes) {
    name !in Here(s) && NewFills(s, kind, name) && TakesSome(s.live, s.available, kind)
  }

  /** The lowest free inode has been made and entered under the name; a file is empty. */
  ghost predicate Makes(s: State, kind: int, name: Bytes, nr: nat, s': State) {
    && LowestFree(s.live, nr) && s'.live == s.live + {nr} && nr < |s'.ino|
    && s.nr in s.logs && s'.logs == CreatedLogs(s.logs, s.nr, kind, name, nr)
    && s'.shape == T.WithPlace(s.shape, s.nr, name, nr)
    && (kind == I_FILE ==> s'.ino[nr] == NoInode().(kind := I_FILE))
    && Kept(s.disk, s.ino, s'.disk, s'.ino, s.live - {s.nr})
  }

  /** A creation without space leaves all names and all other inodes as they were. */
  ghost predicate NewFull(s: State, kind: int, s': State) {
    && s'.nr == s.nr && s'.logs == s.logs && s'.shape == s.shape && s'.live == s.live
    && s'.torn == Torn(s.torn, s'.disk, s'.d, s.nr)
    && Kept(s.disk, s.ino, s'.disk, s'.ino, s.live - {s.nr})
    && (s'.dirty <==> s.dirty || TakesSome(s.live, s.available, kind))
  }

  ghost predicate NewStep(s: State, kind: int, name: Bytes, s': State) {
    if name in Here(s) then s' == s
    else if NewFills(s, kind, name) then NewFull(s, kind, s')
    else
      && s'.nr == s.nr && !s'.dirty && s'.torn == s.torn && s'.available == s.available - NewNeeds(s, kind, name)
      && exists nr: nat :: Makes(s, kind, name, nr, s')
  }

  lemma NamesKnown(logs: Logs)
    ensures forall d: nat :: NamesIn(logs, d) == if d in Meaning(logs) then Meaning(logs)[d] else map[]
    ensures logs.Keys == Meaning(logs).Keys
  {
    hide Sense;
  }

  /** After a creation the current directory has exactly the new name more; a new directory
      has its dots, which name it and the current one; no other names change. */
  lemma MadeNames(s: State, kind: int, name: Bytes, nr: nat, s': State)
    requires Ordered(s) && Makes(s, kind, name, nr, s') && name !in Here(s)
    ensures Here(s).Keys + {name} == NamesIn(s'.logs, s.nr).Keys && NamesIn(s'.logs, s.nr) == Here(s)[name := nr]
    ensures nr in s'.logs <==> kind == I_DIR
    ensures kind == I_DIR ==> NamesIn(s'.logs, nr) == map[DOT := nr, DOTDOT := s.nr]
    ensures forall d: nat :: d != s.nr && d != nr ==> NamesIn(s'.logs, d) == NamesIn(s.logs, d)
  {
    hide Meaning, Sense, Unique, Fits, HasLog, InOrder, Kept, Add, CreatedLogs, Names, T.WithPlace, NamesIn;
    InOrderLog(s.disk, s.ino, s.owner, s.live, s.torn, s.logs, s.shape, s.nr);
    LiveLogs(s, nr);
    CreatedMeaning(s.logs, s.nr, kind, name, nr);
    NamesKnown(s.logs);
    NamesKnown(s'.logs);
  }

  lemma LiveLogs(s: State, nr: nat)
    requires Ordered(s) && nr !in s.live
    ensures nr !in s.logs && nr != s.nr
  {
    LogOf(s.disk, s.ino, s.live, s.logs, nr);
    LogOf(s.disk, s.ino, s.live, s.logs, s.nr);
    hide FsckBut, Settled, Inodes, HasLog, T.Tree, Unique, Fits;
  }

  // ---- creation in a directory without room ----

  /** The record is entered past the largest C int; or it is cut off at the last addressable
      byte, and the inode is removed again; or there is no byte left, and the inode stays
      although nothing is entered. */
  ghost predicate NewPast(s: State, kind: int, name: Bytes, nr: nat, s': State) {
    && s.nr in s.logs && s.nr < |s'.ino| && s'.ino[s.nr].kind == I_DIR && nr < 0x8000_0000
    && Kept(s.disk, s.ino, s'.disk, s'.ino, s.live - {s.nr})
    && (var es, e := s.logs[s.nr], Dirent(nr, name);
        if InReach(Add(es, e)) then s'.live == s.live + {nr} && HasLog(s'.disk, s'.ino, s.nr, Add(es, e))
        else if s.d.size < MaxFile() then s'.live == s.live && CutShort(s'.disk, s'.ino, s.nr, es, e)
        else s'.live == s.live + {nr} && HasLog(s'.disk, s'.ino, s.nr, es))
    && (nr in s'.live ==>
          && LowestFree(s.live, nr) && nr < |s'.ino| && s'.ino[nr].kind == kind
          && HasLog(s'.disk, s'.ino, nr, FirstLog(kind, nr, s.nr)))
  }

  /** There are no logs and no tree that would make it a file system in order. */
  ghost predicate Disordered(s: State) {
    forall torn, logs, shape :: !InOrder(s.disk, s.ino, s.owner, s.live, torn, logs, shape)
  }

  /** The logs of all directories, that of a new one included, without a record for it. */
  function UnnamedLogs(logs: Logs, kind: int, nr: nat, d: nat): Logs {
    if kind == I_DIR then logs[nr := NewDir(nr, d)] else logs
  }

  /** What is found in the directories after that is determined by their bytes. */
  lemma LogIs(disk: Disk, ino: seq<Dinode>, live: set<nat>, logs: Logs, d: nat, es: seq<Dirent>)
    requires Logged(disk, ino, live, logs) && d in live && HasLog(disk, ino, d, es) && ino[d].kind == I_DIR
    ensures d in logs && logs[d] == es && Fits(es)
  {
    LogOf(disk, ino, live, logs, d);
    hide EncodeLog, Content, Fits;
    EncodeLogInjective(logs[d], es);
  }

  /** An inode in use that no record names. */
  lemma NamedNowhere(live: set<nat>, logs: Logs, shape: T.Shape, kind: int, nr: nat, d: nat, p: T.Place)
    requires T.Tree(live, Meaning(logs), shape) && nr !in live && d in logs
    ensures !T.Holds(Meaning(UnnamedLogs(logs, kind, nr, d)), p, nr)
  {
    hide T.Tree, NewDir, Names, Unique;
    NewDirNames(nr, d);
    if T.Holds(Meaning(UnnamedLogs(logs, kind, nr, d)), p, nr) && !(p.dir == nr && kind == I_DIR) {
      NamedLive(live, logs, shape, p.dir, p.name);
    }
  }

  lemma LogsAfter(s: State, kind: int, nr: nat, s': State, torn: set<nat>, logs: Logs, shape: T.Shape)
    requires Ordered(s) && s.nr in s.logs && s.nr < |s'.ino| && s'.ino[s.nr].kind == I_DIR
    requires s'.live == s.live + {nr} && nr !in s.live && nr < |s'.ino| && s'.ino[nr].kind == kind
    requires HasLog(s'.disk, s'.ino, s.nr, s.logs[s.nr]) && HasLog(s'.disk, s'.ino, nr, FirstLog(kind, nr, s.nr))
    requires Kept(s.disk, s.ino, s'.disk, s'.ino, s.live - {s.nr})
    requires InOrder(s'.disk, s'.ino, s'.owner, s'.live, torn, logs, shape)
    ensures logs == UnnamedLogs(s.logs, kind, nr, s.nr)
  {
    hide HasLog, T.Tree, FsckBut, Settled, Inodes, NewDir, Unique, Fits, Meaning, Logged;
    NumbersFit(s.disk, s.ino, s.live, s.torn);
    var after := UnnamedLogs(s.logs, kind, nr, s.nr);
    forall d ensures d in logs <==> d in after
             ensures d in after ==> logs[d] == after[d] {
      LogOf(s.disk, s.ino, s.live, s.logs, d);
      LogOf(s'.disk, s'.ino, s'.live, logs, d);
      if d in after {
        if d in s.live - {s.nr} { KeptLog(s.disk, s.ino, s'.disk, s'.ino, s.live - {s.nr}, d, s.logs[d]); }
        LogIs(s'.disk, s'.ino, s'.live, logs, d, after[d]);
      }
    }
  }

  /** Whatever a creation in a directory without room leaves is not in order any more: the
      log ends past the largest C int, or is no log, or the new inode is named nowhere. */
  lemma PastDisordered(s: State, kind: int, name: Bytes, nr: nat, s': State)
    requires Ordered(s) && NewPast(s, kind, name, nr, s') && !HasRoom(s, name)
    ensures Disordered(s')
  {
    forall torn, logs, shape { PastClashes(s, kind, name, nr, s', torn, logs, shape); }
  }

  lemma PastClashes(s: State, kind: int, name: Bytes, nr: nat, s': State, torn: set<nat>, logs: Logs, shape: T.Shape)
    requires Ordered(s) && NewPast(s, kind, name, nr, s') && !HasRoom(s, name)
    ensures !InOrder(s'.disk, s'.ino, s'.owner, s'.live, torn, logs, shape)
  {
    hide HasLog, T.Tree, FsckBut, Settled, Inodes, Unique, Fits, Meaning, Logged, InReach, CutShort, Add, MaxFile, Kept;
    if InOrder(s'.disk, s'.ino, s'.owner, s'.live, torn, logs, shape) {
      var es, e := s.logs[s.nr], Dirent(nr, name);
      AddSize(es, nr, name);
      LogOf(s.disk, s.ino, s.live, s.logs, s.nr);
      if InReach(Add(es, e)) {
        LogIs(s'.disk, s'.ino, s'.live, logs, s.nr, Add(es, e));
      } else if s.d.size < MaxFile() {
        LogOf(s'.disk, s'.ino, s'.live, logs, s.nr);
        CutHasNoLog(s'.disk, s'.ino, s.nr, es, e, logs[s.nr]);
      } else {
        LogsAfter(s, kind, nr, s', torn, logs, shape);
        forall p: T.Place { NamedNowhere(s.live, s.logs, s.shape, kind, nr, s.nr, p); }
        T.RootLive(s.live, Meaning(s.logs), s.shape);
        T.OneEntry(s'.live, Meaning(logs), shape, nr);
      }
    }
  }

  // ---- removal ----

  /** rm goes on to a file with blocks that testfs_free_blocks does not find. */
  ghost predicate RemovesLoose(s: State, name: Bytes) {
    && RmRefusal(s.logs, s.nr, name) == 0 && name in Here(s)
    && 0 <= Here(s)[name] < |s.ino| && !Tight(s.disk, s.ino[Here(s)[name]])
  }

  /** The inode and its names are gone, and its blocks are free again. */
  ghost predicate RmStep(s: State, name: Bytes, s': State) {
    if RmRefusal(s.logs, s.nr, name) != 0 then s' == s
    else
      && s.nr in s.logs && name in Here(s) && 0 <= Here(s)[name] < |s.ino|
      && var n: nat := Here(s)[name];
         && s'.nr == s.nr && !s'.dirty && s'.live == s.live - {n} && s'.torn == s.torn - {n}
         && s'.logs == RemovedLogs(s.logs, s.nr, name, n) && s'.shape == T.WithoutPlace(s.shape, n)
         && s'.available == s.available + s.ino[n].blockCount
         && Kept(s.disk, s.ino, s'.disk, s'.ino, s.live - {s.nr, n})
  }

  /** After a removal the current directory lacks exactly that name, the names of a removed
      directory are gone with it, and no other names change. */
  lemma RemovedNames(s: State, name: Bytes, s': State)
    requires Ordered(s) && RmStep(s, name, s') && RmRefusal(s.logs, s.nr, name) == 0
    ensures NamesIn(s'.logs, s.nr) == Here(s) - {name}
    ensures Here(s)[name] !in s'.logs
    ensures forall d: nat :: d != s.nr && d != Here(s)[name] ==> NamesIn(s'.logs, d) == NamesIn(s.logs, d)
  {
    hide Meaning, Sense, Unique, Fits, HasLog, InOrder, Kept, Remove, RemovedLogs, Names, T.WithoutPlace, RmRefusal,
         NamesIn;
    InOrderLog(s.disk, s.ino, s.owner, s.live, s.torn, s.logs, s.shape, s.nr);
    var n: nat := Here(s)[name];
    NotSelf(s, name);
    RemovedMeaning(s.logs, s.nr, name, n);
    NamesKnown(s.logs);
    NamesKnown(s'.logs);
  }

  lemma NotSelf(s: State, name: Bytes)
    requires Ordered(s) && RmRefusal(s.logs, s.nr, name) == 0
    ensures name in Here(s) && Here(s)[name] != s.nr
  {
    hide InOrder, Sense, Bare, HasLog, FindUsed;
    var n := Named(s.logs[s.nr], name);
    var sub := if n in s.logs then s.logs[n] else [];
    RmRefusalIs(s.disk, s.ino, s.owner, s.live, s.torn, s.logs, s.shape, s.nr, name, sub);
    RmChild(s.disk, s.ino, s.owner, s.live, s.torn, s.logs, s.shape, s.nr, name);
  }

  // ---- files ----

  /** Why testfs_get_file_inode refuses a name; 0 if it does not. */
  ghost function FileRefusal(s: State, name: Bytes): int {
    if name !in Here(s) then -ENOENT else if Here(s)[name] in s.logs then -EISDIR else 0
  }

  /** A name is refused exactly if it is not there or stands for a directory. */
  lemma FileRefusalMeans(s: State, name: Bytes)
    requires Ordered(s)
    ensures name !in Here(s) ==> FileRefusal(s, name) == -ENOENT
    ensures name in Here(s) ==>
              && 0 <= Here(s)[name] < |s.ino|
              && (s.ino[Here(s)[name]].kind == I_DIR ==> FileRefusal(s, name) == -EISDIR)
              && (s.ino[Here(s)[name]].kind == I_FILE ==> FileRefusal(s, name) == 0)
              && s.ino[Here(s)[name]].kind in {I_FILE, I_DIR}
  {
    hide Meaning, Sense, T.Tree, HasLog, Unique, Fits, FsckBut, Settled, Tight, ZeroBeyond, Solid, NoInode;
    if name in Here(s) {
      NamedLive(s.live, s.logs, s.shape, s.nr, name);
      LogOf(s.disk, s.ino, s.live, s.logs, Here(s)[name]);
    }
  }

  /** The name stands for the current directory, which has unsaved changes, so that the
      assertion of testfs_put_inode fails. */
  ghost predicate NamesDirty(s: State, name: Bytes) {
    name in Here(s) && Here(s)[name] == s.nr && s.dirty
  }

  /** The write loses the ownership invariant. */
  ghost predicate WriteStrands(s: State, name: Bytes, start: nat, len: nat) {
    && FileRefusal(s, name) == 0 && 0 <= Here(s)[name] < |s.ino|
    && StrandsWrite(s.ino[Here(s)[name]], s.available, start, len)
  }

  /** One file has been written to, as far as there was space. */
  ghost predicate WriteStep(s: State, name: Bytes, start: nat, data: Bytes, s': State, ret: int, done: nat) {
    if FileRefusal(s, name) != 0 then ret == FileRefusal(s, name) && s' == s
    else
      && 0 <= Here(s)[name] < |s.ino| == |s'.ino|
      && var n: nat := Here(s)[name];
         && s'.logs == s.logs && s'.shape == s.shape && s'.live == s.live
         && s'.nr == s.nr && s'.d == s.d && s'.dirty == s.dirty
         && s'.torn == Torn(s.torn, s'.disk, s'.ino[n], n)
         && Kept(s.disk, s.ino, s'.disk, s'.ino, s.live - {n})
         && WriteLeaves(s.disk, s.ino, s.available, s'.disk, s'.ino, s'.available, n, start, data, done, ret)
  }

  /** What a command's write leaves of file n: the stored part of the data stands in it,
      and how it ends. Without space the size is kept, and what is stored past it stays
      there: a later write behind the end leaves zeros in the gap exactly if nothing else
      was there. */
  ghost predicate WriteLeaves(disk: Disk, ino: seq<Dinode>, available: int, disk': Disk, ino': seq<Dinode>,
                              available': int,
                              n: nat, start: nat, data: Bytes, done: nat, ret: int)
  {
    && n < |ino| == |ino'| && |ino[n].direct| == NR_DIRECT_BLOCKS && done <= |data|
    && done == StoredLength(disk, ino[n], available, start, |data|)
    && BytesUpdated(disk, ino[n], disk', ino'[n], start, data[..done])
    && if Fills(disk, ino[n], available, start, |data|) then
         && BlockNr(start) < NR_MAX_BLOCK && ret == -ENOSPC && ino'[n].size == ino[n].size
         && Content(disk', ino', n) == Clipped(Content(disk, ino, n), start, data[..done])
         && (Tight(disk, ino[n]) ==> (Tight(disk', ino'[n]) <==> !Spills(disk, ino[n], available, start, |data|)))
         && (ZeroBeyond(disk, ino[n]) ==>
               (ZeroBeyond(disk', ino'[n]) <==> ZeroFrom(data[..done], ino[n].size - start)))
       else
         && available' == available - WriteNeeds(disk, ino[n], start, |data|)
         && ret == (if start >= MaxFile() then EFBIG else if start + |data| <= MaxFile() then |data| else -EFBIG)
         && ino'[n].size == (if start >= MaxFile() then ino[n].size else if start + |data| <= MaxFile()
                             then Extended(ino[n], start + |data|).size else MaxFile())
         && (Tight(disk, ino[n]) ==> Tight(disk', ino'[n]))
         && (ZeroBeyond(disk, ino[n]) ==> ZeroBeyond(disk', ino'[n]))
         && (Stores(Content(disk, ino, n), Content(disk', ino', n), start, data, ret) <==>
               start >= MaxFile() || GapZero(disk, ino[n], start))
  }

  lemma FileLeft(disk: Disk, ino: seq<Dinode>, available: int, disk': Disk, ino': seq<Dinode>, available': int,
                 n: nat, start: nat, data: Bytes, done: nat, ret: int)
    requires && n < |ino| == |ino'| && |ino[n].direct| == NR_DIRECT_BLOCKS && 0 <= ino[n].size <= MaxFile()
             && 0 < |data| < 0x8000_0000
    requires !Fills(disk, ino[n], available, start, |data|) && Tight(disk, ino[n]) ==> Tight(disk', ino'[n])
    requires done == StoredLength(disk, ino[n], available, start, |data|) && done <= |data|
    requires BytesUpdated(disk, ino[n], disk', ino'[n], start, data[..done])
    requires BlockNr(start) >= NR_MAX_BLOCK ==>
               ret == EFBIG && ino'[n] == ino[n] && disk' == disk && available' == available
    requires BlockNr(start) < NR_MAX_BLOCK ==>
               && WriteOutcome(ino[n], ino'[n], start, |data|, Fills(disk, ino[n], available, start, |data|), ret, done)
               && WriteMaps(disk, ino[n], available, disk', ino'[n], available', start, |data|)
    ensures WriteLeaves(disk, ino, available, disk', ino', available', n, start, data, done, ret)
    ensures ino'[n].kind == ino[n].kind
  {
    BlockNrBelow(start);
    Int32Iff(|data|);
    NeedsPast(disk, ino[n], start, |data|);
    if BlockNr(start) >= NR_MAX_BLOCK { NeverFills(disk, ino[n], available, start, |data|); }
    if Fills(disk, ino[n], available, start, |data|) {
      StoredBelow(disk, ino[n], available, start, |data|);
    }
    hide BytesUpdated, Content, MaxFile, BlockNr, ZeroBeyond, WriteMaps, StoredLength, Clipped, Stores, Tight, Spills,
         WriteNeeds, BlockIx, GapZero, Whole;
    if Fills(disk, ino[n], available, start, |data|) {
      ContentClipped(disk, ino, disk', ino', n, start, data[..done]);
      if ZeroBeyond(disk, ino[n]) { StoredZeroIff(disk, ino[n], disk', ino'[n], start, data[..done]); }
      if Tight(disk, ino[n]) { SpillsHere(disk, ino[n], available, disk', ino'[n], available', start, |data|); }
    } else {
      if BlockNr(start) < NR_MAX_BLOCK { TakesNeeds(disk, ino[n], available, disk', ino'[n], available', start,
                                                    |data|); }
      if ZeroBeyond(disk, ino[n]) { WrittenZero(disk, ino[n], disk', ino'[n], start, data[..done]); }
      WrittenStores(disk, ino, disk', ino', n, available, start, data, ret, done);
    }
  }

  lemma StoredBelow(disk: Disk, d: Dinode, available: int, start: nat, len: nat)
    requires |d.direct| == NR_DIRECT_BLOCKS && BlockNr(start) < NR_MAX_BLOCK && Fills(disk, d, available, start, len)
    ensures StoredLength(disk, d, available, start, len) == 0 ||
            start + StoredLength(disk, d, available, start, len) <= MaxFile()
  {
    WriteEndAbove(start, len);
    StopIn(disk, d, available, start, len);
    TimesMonotone(WriteStop(disk, d, available, start, len), NR_MAX_BLOCK, BLOCK_SIZE);
    hide WriteStop;
  }

  lemma StopIn(disk: Disk, d: Dinode, available: int, start: nat, len: nat)
    requires |d.direct| == NR_DIRECT_BLOCKS && BlockNr(start) < NR_MAX_BLOCK
    ensures WriteStop(disk, d, available, start, len) <= NR_MAX_BLOCK
  {}

  lemma FullLeaves(disk: Disk, ino: seq<Dinode>, available: int, disk': Disk, ino': seq<Dinode>, available': int,
                   n: nat, start: nat, data: Bytes, done: nat, ret: int)
    requires WriteLeaves(disk, ino, available, disk', ino', available', n, start, data, done, ret)
    requires n < |ino| && |ino[n].direct| == NR_DIRECT_BLOCKS && Fills(disk, ino[n], available, start, |data|)
    ensures ret == -ENOSPC
  {
    hide Fills;
  }

  lemma SpillsHere(disk: Disk, d: Dinode, available: int, disk': Disk, d': Dinode, available': int, start: nat,
                   len: nat)
    requires WriteMaps(disk, d, available, disk', d', available', start, len) && Fills(disk, d, available, start, len)
    requires Tight(disk, d) && d'.size == d.size
    ensures Tight(disk', d') <==> !Spills(disk, d, available, start, len)
  {
    hide Tight, Spills, Fills, PartlyMapped, Needs, WriteStop, BlockNr;
    SpillsIff(disk, d, disk', d', available, start, len);
  }

  /** Saving the inode changes none of that. */
  lemma LeavesSaved(disk: Disk, ino: seq<Dinode>, available: int, disk1: Disk, ino1: seq<Dinode>, available1: int,
                    owner: Owners, disk2: Disk,
                    n: nat, start: nat, data: Bytes, done: nat, ret: int)
    requires WriteLeaves(disk, ino, available, disk1, ino1, available1, n, start, data, done, ret)
    requires FsOwnership.FsckSave(disk1, ino1, owner, n) && SameData(disk1, disk2)
    ensures WriteLeaves(disk, ino, available, disk2, ino1, available1, n, start, data, done, ret)
  {
    hide FsckBut, Own, OthersSame, Content, Clipped, Stores, StoredLength, Fills, Spills, WriteNeeds, ByteAt, BlockNr,
         MaxFile, SlotOf, Ptr, EndBlock, Tight, ZeroBeyond, GapZero, BytesUpdated, SameData;
    SavedSame(disk1, ino1, owner, disk2, n);
    StillUpdated(disk1, ino1[n], disk2, start + done);
    UpdatedThen(disk, ino[n], disk1, ino1[n], disk2, ino1[n], start, data[..done], []);
    assert data[..done] + [] == data[..done];
  }

  lemma SavedSame(disk: Disk, ino: seq<Dinode>, owner: Owners, disk': Disk, n: nat)
    requires FsOwnership.FsckSave(disk, ino, owner, n) && SameData(disk, disk') && n < |ino|
    ensures BytesUpdated(disk, ino[n], disk', ino[n], 0, []) && Content(disk', ino, n) == Content(disk, ino, n)
    ensures Tight(disk', ino[n]) <==> Tight(disk, ino[n])
    ensures ZeroBeyond(disk', ino[n]) <==> ZeroBeyond(disk, ino[n])
  {
    FilesFrame(disk, ino, owner, n, disk', n, ino[n]);
    SavedContent(disk, ino, owner, n, disk', n);
    hide FsckBut, Own, OthersSame, Content, ByteAt, BlockNr, SlotOf, Ptr, EndBlock, SameData;
    assert forall p: nat :: FileByte(disk', ino[n], p) == FileByte(disk, ino[n], p);
  }

  lemma StillUpdated(disk: Disk, d: Dinode, disk': Disk, at: nat)
    requires BytesUpdated(disk, d, disk', d, 0, [])
    ensures BytesUpdated(disk, d, disk', d, at, [])
  {
    hide ByteAt, BlockNr;
  }

  // ---- all commands ----

  /** cd goes to the directory of that name. */
  ghost predicate CdStep(s: State, name: Bytes, s': State) {
    if name in Here(s) && Here(s)[name] in s.logs then
      && 0 <= Here(s)[name] < |s.ino|
      && s' == s.(nr := Here(s)[name], d := s.ino[Here(s)[name]])
    else s' == s
  }

  /** What a command does that lets the shell go on. */
  ghost predicate Step(s: State, c: Command, s': State) {
    match c
    case CmdCd(name) => CdStep(s, name, s')
    case CmdCreate(name) => NewStep(s, I_FILE, name, s')
    case CmdMkdir(name) => NewStep(s, I_DIR, name, s')
    case CmdRm(name) => RmStep(s, name, s')
    case CmdWrite(name, start, data) => exists ret: int, done: nat :: WriteStep(s, name, start, data, s', ret, done)
    case _ => s' == s
  }

  /** A failed assertion stops the program at this command: rm of a file with blocks that
      testfs_free_blocks does not find, or putting back the current directory while a
      failed creation has left it with unsaved changes. */
  ghost predicate StopsAt(s: State, c: Command) {
    match c
    case CmdRm(name) => RemovesLoose(s, name)
    case CmdCd(name) => s.dirty && name in Here(s) && Here(s)[name] in s.logs
    case CmdWrite(name, _, _) => NamesDirty(s, name)
    case CmdRead(name, _, _) => NamesDirty(s, name)
    case _ => false
  }

  /** A write of this command fails at a new single-indirect block that takes the last
      free block. */
  ghost predicate StrandsAt(s: State, c: Command) {
    match c
    case CmdWrite(name, start, data) => WriteStrands(s, name, start, |data|)
    case CmdCreate(name) => NewStrands(s, I_FILE, name)
    case CmdMkdir(name) => NewStrands(s, I_DIR, name)
    case _ => false
  }

  /** Creates at the limit of the directory's size. */
  ghost predicate NoRoomAt(s: State, c: Command) {
    match c
    case CmdCreate(name) => NewNoRoom(s, I_FILE, name)
    case CmdMkdir(name) => NewNoRoom(s, I_DIR, name)
    case _ => false
  }

  ghost predicate SpoilsAt(s: State, c: Command) {
    match c
    case CmdCreate(name) => NewSpoils(s, I_FILE, name)
    case CmdMkdir(name) => NewSpoils(s, I_DIR, name)
    case _ => false
  }

  /** The command saves the current directory: it makes or removes something in it. */
  ghost predicate SavesAt(s: State, c: Command) {
    match c
    case CmdCreate(name) => name !in Here(s) && !NewFills(s, I_FILE, name)
    case CmdMkdir(name) => name !in Here(s) && !NewFills(s, I_DIR, name)
    case CmdRm(name) => RmRefusal(s.logs, s.nr, name) == 0
    case _ => false
  }

  ghost predicate GoesOn(s: State, c: Command, s': State) {
    !StopsAt(s, c) && !StrandsAt(s, c) && !NoRoomAt(s, c) && Step(s, c, s')
  }

  /** The current directory has unsaved changes after a command exactly if the command has
      spoiled it, or if it had some and the command has not saved them. */
  lemma DirtyIff(s: State, c: Command, s': State)
    requires Step(s, c, s')
    ensures s'.dirty <==> SpoilsAt(s, c) || (s.dirty && !SavesAt(s, c))
  {
    hide WriteLeaves, CreateFills, RmRefusal, TakesSome, Kept, Makes, NewNeeds;
  }

  // ---- runs ----

  /** The states before and after the commands of a run. */
  ghost predicate IsTrace(trace: seq<State>, commands: seq<Command>) {
    |trace| == |commands| + 1 && forall k :: 0 <= k < |commands| ==> GoesOn(trace[k], commands[k], trace[k + 1])
  }

  /** In a run that begins without unsaved changes there are none as long as no creation runs
      out of space with a block already taken. */
  lemma {:induction false} CleanRun(trace: seq<State>, commands: seq<Command>, n: nat)
    requires IsTrace(trace, commands) && n <= |commands| && !trace[0].dirty
    requires forall k :: 0 <= k < n ==> !SpoilsAt(trace[k], commands[k])
    ensures !trace[n].dirty
  {
    hide Step, SpoilsAt, StopsAt, StrandsAt, NoRoomAt;
    if 0 < n {
      CleanRun(trace, commands, n - 1);
      DirtyIff(trace[n - 1], commands[n - 1], trace[n]);
    }
  }

  /** There are some at the end exactly if some command has spoiled the current directory, or
      it was so from the start, and no later one has saved it. */
  lemma {:induction false} DirtyRunIff(trace: seq<State>, commands: seq<Command>, n: nat)
    requires IsTrace(trace, commands) && n <= |commands|
    ensures trace[n].dirty <==>
              exists k :: 0 <= k <= n && Spoilt(trace, commands, k) && NotSaved(trace, commands, k, n)
  {
    hide Step, SpoilsAt, StopsAt, StrandsAt, NoRoomAt, SavesAt;
    if n == 0 {
      assert trace[0].dirty ==> Spoilt(trace, commands, 0) && NotSaved(trace, commands, 0, 0);
    } else {
      DirtyRunIff(trace, commands, n - 1);
      DirtyIff(trace[n - 1], commands[n - 1], trace[n]);
      forall k: nat | k <= n
        ensures k < n ==> (NotSaved(trace, commands, k, n) <==>
                             NotSaved(trace, commands, k, n - 1) && !SavesAt(trace[n - 1], commands[n - 1]))
      {}
      assert Spoilt(trace, commands, n) <==> SpoilsAt(trace[n - 1], commands[n - 1]);
      assert NotSaved(trace, commands, n, n);
    }
  }

  /** The command before state k has spoiled the current directory; none precedes the
      first state. */
  ghost predicate Spoilt(trace: seq<State>, commands: seq<Command>, k: nat)
    requires k <= |commands| < |trace|
  {
    if k == 0 then trace[0].dirty else SpoilsAt(trace[k - 1], commands[k - 1])
  }

  ghost predicate NotSaved(trace: seq<State>, commands: seq<Command>, k: nat, n: nat)
    requires n <= |commands| < |trace|
  {
    forall j :: k <= j < n ==> !SavesAt(trace[j], commands[j])
  }
}
