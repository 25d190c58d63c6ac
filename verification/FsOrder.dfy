/** Files, directory logs and the tree of names in order, and what a creation, a removal and
    a write do to them. */
module FsOrder {
  import opened FsLayout
  import opened FsCodec
  import opened FsOwnership
  import opened FsInode
  import opened FsAllocate
  import opened FsBytes
  import opened FsSpace
  import opened FsReadWrite
  import opened FsFiles
  import opened FsDirLog
  import opened FsDirectory
  import opened FsEntries
  import T = FsTree

  type Logs = map<nat, seq<Dirent>>

  /** The map a log stands for. */
  ghost function Sense(es: seq<Dirent>): map<Bytes, int> {
    if Unique(es) then Names(es) else map[]
  }

  /** The names that the logs stand for. */
  ghost function Meaning(logs: Logs): T.Directories {
    map d | d in logs :: Sense(logs[d])
  }

  lemma MeaningSet(logs: Logs, d: nat, es: seq<Dirent>)
    ensures Meaning(logs[d := es]) == Meaning(logs)[d := Sense(es)]
    ensures Meaning(logs - {d}) == Meaning(logs) - {d}
  {
    hide Sense;
  }

  /** Directory d holds the log es. */
  ghost predicate LogAt(disk: Disk, ino: seq<Dinode>, d: nat, es: seq<Dirent>) {
    HasLog(disk, ino, d, es) && Unique(es) && Fits(es)
  }

  /** The directories among the live inodes hold the logs. */
  ghost predicate Logged(disk: Disk, ino: seq<Dinode>, live: set<nat>, logs: Logs) {
    && (forall d :: d in logs <==> d in live && d < |ino| && ino[d].kind == I_DIR)
    && (forall d :: d in logs ==> LogAt(disk, ino, d, logs[d]))
  }

  /** A command's view of the names in directory d. */
  ghost function NamesIn(logs: Logs, d: nat): map<Bytes, int> {
    if d in logs then Sense(logs[d]) else map[]
  }

  lemma Look(logs: Logs, d: nat, name: Bytes)
    requires d in logs && Unique(logs[d])
    ensures NamesIn(logs, d) == Meaning(logs)[d]
    ensures FindUsed(logs[d], name) < |logs[d]| <==> name in NamesIn(logs, d)
    ensures name in NamesIn(logs, d) ==> NamesIn(logs, d)[name] == logs[d][FindUsed(logs[d], name)].inodeNr
  {
    LookupIsMap(logs[d], name);
    hide Names;
  }

  /** Every name stands for a live inode. */
  lemma NamedLive(live: set<nat>, logs: Logs, s: T.Shape, d: nat, name: Bytes)
    requires T.Tree(live, Meaning(logs), s) && d in logs && name in NamesIn(logs, d)
    ensures NamesIn(logs, d)[name] >= 0 && NamesIn(logs, d)[name] as nat in live
  {
    hide Names, T.Placed;
    assert T.DirectoryOk(s, d, Meaning(logs)[d]);
    if d != 0 { T.ParentAbove(live, Meaning(logs), s, d); }
  }

  /** Files and directories are in order, and the names form a tree; writes on the torn
      inodes have run out of space. */
  ghost predicate InOrder(disk: Disk, ino: seq<Dinode>, owner: Owners, live: set<nat>, torn: set<nat>, logs: Logs,
                          s: T.Shape) {
    && FsOwnership.Fsck(disk, ino, owner) && Settled(owner) && Inodes(disk, ino, live, torn)
    && Logged(disk, ino, live, logs)
    && T.Tree(live, Meaning(logs), s)
  }

  lemma InOrderFiles(t: InodeTable, torn: set<nat>, logs: Logs, s: T.Shape)
    requires InOrder(t.sb.disk, t.ino, t.owner, t.sb.live, torn, logs, s)
    ensures Files(t, torn) && Logged(t.sb.disk, t.ino, t.sb.live, logs) && T.Tree(t.sb.live, Meaning(logs), s)
    ensures |t.ino| == NR_INODES && 0 in logs && 0 in t.sb.live && forall n :: n in t.sb.live ==> n < NR_INODES
  {
    hide FsckBut, FileOk, Whole, NoInode, HasLog, Names, T.DirectoryOk, T.Placed;
    assert 0 in Meaning(logs);
  }

  lemma LogOf(disk: Disk, ino: seq<Dinode>, live: set<nat>, logs: Logs, d: nat)
    requires Logged(disk, ino, live, logs)
    ensures d in logs <==> d in live && d < |ino| && ino[d].kind == I_DIR
    ensures d in logs ==> HasLog(disk, ino, d, logs[d]) && Unique(logs[d]) && Fits(logs[d])
  {
    hide HasLog;
  }

  // ---- what a command does to the logs ----

  /** The logs after testfs_create_file_or_dir has made inode nr. */
  function CreatedLogs(logs: Logs, d: nat, kind: int, name: Bytes, nr: nat): (made: Logs)
    requires d in logs
    ensures made.Keys == logs.Keys + if kind == I_DIR then {nr} else {}
  {
    var named := logs[d := Add(logs[d], Dirent(nr, name))];
    if kind == I_DIR then named[nr := NewDir(nr, d)] else named
  }

  /** The directory can take one more record under this name. */
  predicate Room(es: seq<Dirent>, name: Bytes) { Fits(Add(es, Dirent(0, name))) }

  lemma RoomReach(es: seq<Dirent>, name: Bytes)
    ensures Room(es, name) ==> InReach(Add(es, Dirent(0, name)))
  {}

  lemma NewDirNames(nr: nat, d: nat)
    ensures Unique(NewDir(nr, d)) && Names(NewDir(nr, d)) == T.NewNames(nr, d)
  {
    var es := NewDir(nr, d);
    NamesAt(es, 0);
    NamesAt(es, 1);
    forall x | x in Names(es) ensures x in T.NewNames(nr, d) && Names(es)[x] == T.NewNames(nr, d)[x] {
      var k := NamesOf(es, x);
    }
  }

  lemma CreatedMeaning(logs: Logs, d: nat, kind: int, name: Bytes, nr: nat)
    requires d in logs && nr !in logs && Unique(logs[d]) && name !in NamesIn(logs, d)
    ensures Unique(Add(logs[d], Dirent(nr, name)))
    ensures var named := T.WithName(Meaning(logs), d, name, nr);
            Meaning(CreatedLogs(logs, d, kind, name, nr)) ==
              if kind == I_DIR then named[nr := T.NewNames(nr, d)] else named
  {
    var es := Add(logs[d], Dirent(nr, name));
    AddIsUpdate(logs[d], Dirent(nr, name));
    NewDirNames(nr, d);
    assert Sense(es) == Sense(logs[d])[name := nr] && Sense(NewDir(nr, d)) == T.NewNames(nr, d);
    hide Sense, Add, Unique, NewDir;
    MeaningSet(logs, d, es);
    MeaningSet(logs[d := es], nr, NewDir(nr, d));
    assert Meaning(logs)[d] == Sense(logs[d]);
    hide Meaning;
  }

  lemma KeptLogAt(disk: Disk, ino: seq<Dinode>, disk': Disk, ino': seq<Dinode>, keep: set<nat>, d: nat, es: seq<Dirent>)
    requires Kept(disk, ino, disk', ino', keep) && d in keep && LogAt(disk, ino, d, es)
    ensures LogAt(disk', ino', d, es) && d < |ino| && ino'[d] == ino[d]
  {
    KeptLog(disk, ino, disk', ino', keep, d, es);
  }

  /** The new logs are those on the device. */
  lemma CreatedLogged(disk: Disk, ino: seq<Dinode>, live: set<nat>, logs: Logs, disk': Disk, ino': seq<Dinode>,
                      d: nat, kind: int, name: Bytes, nr: nat)
    requires && Logged(disk, ino, live, logs) && d in logs && nr !in live
             && (forall n :: n in live ==> n < |ino| == |ino'|)
    requires (kind == I_DIR || kind == I_FILE) && nr < |ino'| && ino'[nr].kind == kind && ino'[d].kind == I_DIR
    requires kind == I_DIR ==> LogAt(disk', ino', nr, NewDir(nr, d))
    requires LogAt(disk', ino', d, Add(logs[d], Dirent(nr, name)))
    requires Kept(disk, ino, disk', ino', live - {d})
    ensures Logged(disk', ino', live + {nr}, CreatedLogs(logs, d, kind, name, nr))
  {
    hide Add, NewDir, LogAt, Content;
    var logs', keep := CreatedLogs(logs, d, kind, name, nr), live - {d};
    forall e | e in keep && e in logs ensures LogAt(disk', ino', e, logs[e]) {
      KeptLogAt(disk, ino, disk', ino', keep, e, logs[e]);
    }
    forall e | e in keep ensures ino'[e] == ino[e] {}
    hide Kept;
    forall e ensures e in logs' <==> e in live + {nr} && e < |ino'| && ino'[e].kind == I_DIR {
      assert e in keep ==> ino'[e] == ino[e];
    }
  }

  lemma CreatedInOrder(disk: Disk, ino: seq<Dinode>, owner: Owners, live: set<nat>, torn: set<nat>, logs: Logs,
                       s: T.Shape,
                       disk': Disk, ino': seq<Dinode>, owner': Owners, d: nat, kind: int, name: Bytes, nr: nat)
    requires && InOrder(disk, ino, owner, live, torn, logs, s) && d in logs && nr !in live
             && FindUsed(logs[d], name) == |logs[d]|
    requires FsOwnership.Fsck(disk', ino', owner') && Settled(owner') && Inodes(disk', ino', live + {nr}, torn)
    requires Room(logs[d], name)
    requires && (kind == I_DIR || kind == I_FILE) && nr < |ino'| && ino'[nr].kind == kind && d < |ino'|
             && ino'[d].kind == I_DIR
    requires HasLog(disk', ino', nr, FirstLog(kind, nr, d)) && HasLog(disk', ino', d, Add(logs[d], Dirent(nr, name)))
    requires Kept(disk, ino, disk', ino', live - {d})
    ensures InOrder(disk', ino', owner', live + {nr}, torn, CreatedLogs(logs, d, kind, name, nr),
                    T.WithPlace(s, d, name, nr))
  {
    NumbersFit(disk, ino, live, torn);
    NumbersFit(disk', ino', live + {nr}, torn);
    LogOf(disk, ino, live, logs, d);
    Look(logs, d, name);
    CreatedMeaning(logs, d, kind, name, nr);
    CreatedFits(logs, d, name, nr);
    NewDirLogs(nr, d);
    hide FsckBut, Settled, Inodes, HasLog, Kept, Fits, Unique, T.Tree, EncodeLog, MaxFile, Meaning, Add, NewDir,
         Names, InReach, EntryOk, Room, InOneBlock, T.WithPlace;
    CreatedLogged(disk, ino, live, logs, disk', ino', d, kind, name, nr);
    if kind == I_DIR {
      T.TreeWithDir(live, Meaning(logs), s, d, name, nr);
    } else {
      T.TreeWithFile(live, Meaning(logs), s, d, name, nr);
    }
  }

  lemma CreatedFits(logs: Logs, d: nat, name: Bytes, nr: nat)
    requires d in logs && Room(logs[d], name) && nr < 0x8000_0000
    ensures Fits(Add(logs[d], Dirent(nr, name)))
  {
    AddSize(logs[d], nr, name);
  }

  lemma NumbersFit(disk: Disk, ino: seq<Dinode>, live: set<nat>, torn: set<nat>)
    requires Inodes(disk, ino, live, torn)
    ensures |ino| == NR_INODES < 0x8000_0000 && forall n :: n in live ==> n < |ino|
  {
    assert Relations(SHAPE);
    hide FileOk, Whole, NoInode;
  }

  /** The logs after rm of a name that stands for inode n. */
  function RemovedLogs(logs: Logs, d: nat, name: Bytes, n: nat): (left: Logs)
    requires d in logs
    ensures left.Keys == logs.Keys - {n}
  {
    logs[d := Remove(logs[d], name)] - {n}
  }

  lemma BareNames(es: seq<Dirent>)
    requires Bare(es)
    ensures forall x :: x in Sense(es) ==> T.IsDot(x)
  {
    if Unique(es) {
      forall x | x in Names(es) ensures T.IsDot(x) { var k := NamesOf(es, x); }
    }
  }

  lemma RemovedFits(es: seq<Dirent>, name: Bytes)
    requires Fits(es)
    ensures Fits(Remove(es, name))
  {
    SameLengths(es, Remove(es, name));
  }

  lemma RemovedMeaning(logs: Logs, d: nat, name: Bytes, n: nat)
    requires d in logs && Unique(logs[d]) && n != d
    ensures Unique(Remove(logs[d], name))
    ensures Meaning(RemovedLogs(logs, d, name, n)) == T.Without(Meaning(logs), d, name, n)
  {
    var es := Remove(logs[d], name);
    RemoveIsErase(logs[d], name);
    assert Sense(es) == Sense(logs[d]) - {name};
    hide Sense, Remove, Unique;
    MeaningSet(logs, d, es);
    MeaningSet(logs[d := es], n, es);
    assert Meaning(logs)[d] == Sense(logs[d]);
    hide Meaning;
  }

  lemma RemovedLogged(disk: Disk, ino: seq<Dinode>, live: set<nat>, logs: Logs, disk': Disk, ino': seq<Dinode>,
                      d: nat, name: Bytes, n: nat)
    requires Logged(disk, ino, live, logs) && d in logs && n != d && (forall m :: m in live ==> m < |ino| == |ino'|)
    requires ino'[d].kind == I_DIR && LogAt(disk', ino', d, Remove(logs[d], name))
    requires Kept(disk, ino, disk', ino', live - {d, n})
    ensures Logged(disk', ino', live - {n}, RemovedLogs(logs, d, name, n))
  {
    hide Remove, LogAt, Content;
    var logs', keep := RemovedLogs(logs, d, name, n), live - {d, n};
    forall e | e in keep && e in logs ensures LogAt(disk', ino', e, logs[e]) {
      KeptLogAt(disk, ino, disk', ino', keep, e, logs[e]);
    }
    forall e | e in keep ensures ino'[e] == ino[e] {}
    hide Kept;
    forall e ensures e in logs' <==> e in live - {n} && e < |ino'| && ino'[e].kind == I_DIR {
      assert e in keep ==> ino'[e] == ino[e];
    }
  }

  lemma RemovedInOrder(disk: Disk, ino: seq<Dinode>, owner: Owners, live: set<nat>, torn: set<nat>, logs: Logs,
                       s: T.Shape,
                       disk': Disk, ino': seq<Dinode>, owner': Owners, d: nat, name: Bytes, n: nat)
    requires InOrder(disk, ino, owner, live, torn, logs, s) && d in logs && !T.IsDot(name)
    requires name in NamesIn(logs, d) && NamesIn(logs, d)[name] == n && n != d && (n in logs ==> Bare(logs[n]))
    requires FsOwnership.Fsck(disk', ino', owner') && Settled(owner') && Inodes(disk', ino', live - {n}, torn - {n})
    requires d < |ino'| && ino'[d].kind == I_DIR && HasLog(disk', ino', d, Remove(logs[d], name))
    requires Kept(disk, ino, disk', ino', live - {d, n})
    ensures InOrder(disk', ino', owner', live - {n}, torn - {n}, RemovedLogs(logs, d, name, n), T.WithoutPlace(s, n))
  {
    NumbersFit(disk, ino, live, torn);
    NumbersFit(disk', ino', live - {n}, torn - {n});
    LogOf(disk, ino, live, logs, d);
    RemovedFits(logs[d], name);
    RemovedMeaning(logs, d, name, n);
    if n in logs { BareNames(logs[n]); }
    hide FsckBut, Settled, Inodes, HasLog, Kept, Fits, Unique, T.Tree, EncodeLog, MaxFile, Remove, Sense, Bare,
         T.WithoutPlace, T.Without, T.IsDot;
    assert Meaning(logs)[d] == Sense(logs[d]) && (n in logs ==> Meaning(logs)[n] == Sense(logs[n]));
    RemovedLogged(disk, ino, live, logs, disk', ino', d, name, n);
    hide Meaning;
    T.TreeWithout(live, Meaning(logs), s, d, name, n);
  }

  /** Why cmd_rm refuses a name; 0 if it does not. */
  ghost function RmRefusal(logs: Logs, d: nat, name: Bytes): int {
    var names := NamesIn(logs, d);
    if T.IsDot(name) then -EINVAL
    else if name !in names then -ENOENT
    else if names[name] in logs && !Bare(logs[names[name] as nat]) then -ENOTEMPTY
    else 0
  }

  /** The directory holds a name other than "." and "..". */
  ghost predicate Populated(logs: Logs, n: int) {
    n in logs && exists x :: x in NamesIn(logs, n) && !T.IsDot(x)
  }

  lemma PopulatedIff(es: seq<Dirent>)
    requires Unique(es)
    ensures Bare(es) <==> forall x :: x in Sense(es) ==> T.IsDot(x)
  {
    if Bare(es) { BareNames(es); }
    forall k | 0 <= k < |es| && Used(es[k]) ensures es[k].name in Sense(es) { NamesAt(es, k); }
  }

  /** What the refusals of cmd_rm mean in terms of names. */
  lemma RmRefusalMeans(disk: Disk, ino: seq<Dinode>, owner: Owners, live: set<nat>, torn: set<nat>, logs: Logs,
                       s: T.Shape, d: nat, name: Bytes)
    requires InOrder(disk, ino, owner, live, torn, logs, s) && d in logs
    ensures var r, names := RmRefusal(logs, d, name), NamesIn(logs, d);
            && r in {0, -EINVAL, -ENOENT, -ENOTEMPTY}
            && (r == -EINVAL <==> T.IsDot(name))
            && (r == -ENOENT <==> !T.IsDot(name) && name !in names)
            && (r == -ENOTEMPTY <==> !T.IsDot(name) && name in names && Populated(logs, names[name]))
            && (r == 0 <==> !T.IsDot(name) && name in names && !Populated(logs, names[name]))
  {
    var names := NamesIn(logs, d);
    if name in names && names[name] in logs {
      InOrderLog(disk, ino, owner, live, torn, logs, s, names[name]);
      PopulatedIff(logs[names[name]]);
    }
    hide InOrder, Sense, Bare, Unique, Fits, HasLog;
  }

  lemma RmChild(disk: Disk, ino: seq<Dinode>, owner: Owners, live: set<nat>, torn: set<nat>, logs: Logs, s: T.Shape,
                d: nat, name: Bytes)
    requires InOrder(disk, ino, owner, live, torn, logs, s) && d in logs && Goes(logs[d], name)
    ensures var n := Named(logs[d], name);
            && name in NamesIn(logs, d) && NamesIn(logs, d)[name] == n
            && n != d && n in live && n < NR_INODES == |ino|
            && (n in logs <==> ino[n].kind == I_DIR) && (n in logs ==> HasLog(disk, ino, n, logs[n]))
  {
    NumbersFit(disk, ino, live, torn);
    LogOf(disk, ino, live, logs, d);
    Look(logs, d, name);
    hide Logged, HasLog, FsckBut, Inodes, Settled, Meaning, Sense, T.Tree, LogAt, Unique, Fits;
    NamedLive(live, logs, s, d, name);
    var n := Named(logs[d], name);
    LogOf(disk, ino, live, logs, n);
    T.CanGo(live, Meaning(logs), s, d, name, n);
  }

  lemma InOrderLog(disk: Disk, ino: seq<Dinode>, owner: Owners, live: set<nat>, torn: set<nat>, logs: Logs,
                   s: T.Shape, d: nat)
    requires InOrder(disk, ino, owner, live, torn, logs, s) && d in logs
    ensures HasLog(disk, ino, d, logs[d]) && Unique(logs[d]) && Fits(logs[d])
  {
    LogOf(disk, ino, live, logs, d);
    hide FsckBut, Inodes, T.Tree, HasLog, Fits, Unique;
  }

  lemma RmRefusalIs(disk: Disk, ino: seq<Dinode>, owner: Owners, live: set<nat>, torn: set<nat>, logs: Logs,
                    s: T.Shape, d: nat, name: Bytes, sub: seq<Dirent>)
    requires InOrder(disk, ino, owner, live, torn, logs, s) && d in logs
    requires Named(logs[d], name) in logs ==> sub == logs[Named(logs[d], name)]
    ensures Refusal(ino, logs[d], name, sub) == RmRefusal(logs, d, name)
    ensures RmRefusal(logs, d, name) == 0 ==> Goes(logs[d], name)
  {
    hide InOrder, Sense, Bare, FindUsed, HasLog, Fits, Unique;
    InOrderLog(disk, ino, owner, live, torn, logs, s, d);
    Look(logs, d, name);
    if Goes(logs[d], name) { RmChild(disk, ino, owner, live, torn, logs, s, d, name); }
  }

  /** The inode that is to go, and its log if it is a directory. */
  lemma RmTarget(t: InodeTable, torn: set<nat>, logs: Logs, s: T.Shape, d: nat, name: Bytes) returns (sub: seq<Dirent>)
    requires InOrder(t.sb.disk, t.ino, t.owner, t.sb.live, torn, logs, s) && d in logs
    requires t.table.Keys == {d}
    ensures Refusal(t.ino, logs[d], name, sub) == RmRefusal(logs, d, name)
    ensures Removable(t, logs[d], name, sub) && Target(t, logs[d], name) == {}
    ensures RmRefusal(logs, d, name) == 0 ==>
              var n := Named(logs[d], name);
              && Goes(logs[d], name) && name in NamesIn(logs, d) && NamesIn(logs, d)[name] == n
              && n != d && n in t.sb.live && n < NR_INODES && (n in logs ==> Bare(logs[n]))
  {
    hide InOrder, HasLog, Sense, T.Tree, Bare, FindUsed, Refusal;
    var n := Named(logs[d], name);
    sub := if n in logs then logs[n] else [];
    RmRefusalIs(t.sb.disk, t.ino, t.owner, t.sb.live, torn, logs, s, d, name, sub);
    if Goes(logs[d], name) { RmChild(t.sb.disk, t.ino, t.owner, t.sb.live, torn, logs, s, d, name); }
  }

  // ---- files ----

  /** What a file holds after `data` is written at `at`: a gap is filled with zeros. */
  function Overwrite(c: Bytes, at: nat, data: Bytes): (w: Bytes)
    ensures |w| == if |c| < at + |data| then at + |data| else |c|
  {
    var front := if at <= |c| then c[..at] else c + Zeros(at - |c|);
    front + data + if at + |data| <= |c| then c[at + |data|..] else []
  }

  lemma ContentOverwritten(disk: Disk, ino: seq<Dinode>, disk': Disk, ino': seq<Dinode>, n: nat, at: nat, data: Bytes)
    requires n < |ino| == |ino'| && 0 <= ino[n].size && BytesUpdated(disk, ino[n], disk', ino'[n], at, data)
    requires at + |data| <= MaxFile() && ino[n].size <= MaxFile()
    requires ino'[n].size == if ino[n].size < at + |data| then at + |data| else ino[n].size
    ensures Content(disk', ino', n) == Overwrite(Content(disk, ino, n), at, data) <==> GapZero(disk, ino[n], at)
  {
    hide ByteAt, BlockNr, MaxFile, Overwrite, FileByte;
    var was, now := Content(disk, ino, n), Content(disk', ino', n);
    assert |was| == ino[n].size && |now| == ino'[n].size;
    forall p: nat | p < |now|
      ensures p < |was| || at <= p ==> now[p] == Overwrite(was, at, data)[p]
      ensures |was| <= p < at ==> Overwrite(was, at, data)[p] == 0 && now[p] == FileByte(disk, ino[n], p)
    {
      BlockNrBelow(p);
      ByteKept(disk, ino[n], disk', ino'[n], at, data, p);
      assert now[p] == FileByte(disk', ino'[n], p);
      assert p < |was| ==> was[p] == FileByte(disk, ino[n], p);
      OverwriteAt(was, at, data, p);
    }
    assert |Overwrite(was, at, data)| == |now|;
  }

  lemma ByteKept(disk: Disk, d: Dinode, disk': Disk, d': Dinode, at: nat, data: Bytes, p: nat)
    requires BytesUpdated(disk, d, disk', d', at, data) && BlockNr(p) < NR_MAX_BLOCK
    ensures FileByte(disk', d', p) == if at <= p < at + |data| then data[p - at] else FileByte(disk, d, p)
  {
    hide ByteAt, BlockNr;
  }

  lemma OverwriteAt(c: Bytes, at: nat, data: Bytes, p: nat)
    requires p < |Overwrite(c, at, data)|
    ensures Overwrite(c, at, data)[p] == if at <= p < at + |data| then data[p - at] else if p < |c| then c[p] else 0
  {}

  /** What a write that does not run out of space should leave in a file and return. */
  ghost predicate Stores(before: Bytes, after: Bytes, start: nat, data: Bytes, ret: int) {
    if start >= MaxFile() then ret == EFBIG && after == before
    else if start + |data| <= MaxFile() then ret == |data| && after == Overwrite(before, start, data)
    else ret == -EFBIG && after == Overwrite(before, start, data[..MaxFile() - start])
  }

  lemma WrittenStores(disk: Disk, ino: seq<Dinode>, disk': Disk, ino': seq<Dinode>, n: nat,
                      available: int, start: nat, data: Bytes, ret: int, done: nat)
    requires && n < |ino| == |ino'| && |ino[n].direct| == NR_DIRECT_BLOCKS && 0 <= ino[n].size <= MaxFile()
    requires 0 < |data| < 0x8000_0000 && !Fills(disk, ino[n], available, start, |data|)
    requires done == StoredLength(disk, ino[n], available, start, |data|) && done <= |data|
    requires BytesUpdated(disk, ino[n], disk', ino'[n], start, data[..done])
    requires BlockNr(start) >= NR_MAX_BLOCK ==> ret == EFBIG && ino'[n] == ino[n] && disk' == disk
    requires BlockNr(start) < NR_MAX_BLOCK ==> WriteOutcome(ino[n], ino'[n], start, |data|, false, ret, done)
    ensures Stores(Content(disk, ino, n), Content(disk', ino', n), start, data, ret) <==>
              start >= MaxFile() || GapZero(disk, ino[n], start)
  {
    BlockNrBelow(start);
    Int32Iff(|data|);
    hide BytesUpdated, Content, MaxFile, BlockNr, Overwrite, GapZero, Fills;
    if start < MaxFile() {
      ContentOverwritten(disk, ino, disk', ino', n, start, data[..done]);
      assert data[..|data|] == data;
    } else {
      assert Content(disk', ino', n) == Content(disk, ino, n) by { SameContent(disk, ino, ino', n); }
    }
  }

  /** The same bytes where they lie inside the file. */
  function Clipped(c: Bytes, at: nat, data: Bytes): (w: Bytes)
    ensures |w| == |c|
  {
    seq(|c|, p requires 0 <= p < |c| => if at <= p < at + |data| then data[p - at] else c[p])
  }

  /** A write that does not change the size changes the bytes inside the file. */
  lemma ContentClipped(disk: Disk, ino: seq<Dinode>, disk': Disk, ino': seq<Dinode>, n: nat, at: nat, data: Bytes)
    requires && n < |ino| == |ino'| && 0 <= ino[n].size <= MaxFile()
             && BytesUpdated(disk, ino[n], disk', ino'[n], at, data)
    requires ino'[n].size == ino[n].size
    ensures Content(disk', ino', n) == Clipped(Content(disk, ino, n), at, data)
  {
    hide ByteAt, BlockNr, MaxFile;
    var was, now := Content(disk, ino, n), Content(disk', ino', n);
    forall p: nat | p < |now| ensures now[p] == Clipped(was, at, data)[p] {
      BlockNrBelow(p);
      assert now[p] == FileByte(disk', ino'[n], p);
    }
  }

  lemma SameContent(disk: Disk, ino: seq<Dinode>, ino': seq<Dinode>, n: nat)
    requires n < |ino| == |ino'| && ino'[n] == ino[n]
    ensures Content(disk, ino', n) == Content(disk, ino, n)
  {}

  lemma FileLogged(disk: Disk, ino: seq<Dinode>, live: set<nat>, logs: Logs, disk': Disk, ino': seq<Dinode>, n: nat)
    requires Logged(disk, ino, live, logs) && n in live && n !in logs && (forall m :: m in live ==> m < |ino| == |ino'|)
    requires Kept(disk, ino, disk', ino', live - {n}) && ino'[n].kind == ino[n].kind
    ensures Logged(disk', ino', live, logs)
  {
    hide LogAt, Content;
    forall e | e in logs ensures LogAt(disk', ino', e, logs[e]) {
      KeptLogAt(disk, ino, disk', ino', live - {n}, e, logs[e]);
    }
    forall e | e in live - {n} ensures ino'[e] == ino[e] {}
    hide Kept;
    forall e ensures e in logs <==> e in live && e < |ino'| && ino'[e].kind == I_DIR {
      assert e in live - {n} ==> ino'[e] == ino[e];
    }
  }

  /** A change to one file leaves the directories and the tree alone. */
  lemma FileWrittenInOrder(disk: Disk, ino: seq<Dinode>, owner: Owners, live: set<nat>, torn: set<nat>, logs: Logs,
                           s: T.Shape,
                           disk': Disk, ino': seq<Dinode>, owner': Owners, torn': set<nat>, n: nat)
    requires InOrder(disk, ino, owner, live, torn, logs, s) && n in live && n !in logs
    requires FsOwnership.Fsck(disk', ino', owner') && Settled(owner') && Inodes(disk', ino', live, torn')
    requires Kept(disk, ino, disk', ino', live - {n}) && n < |ino'| && n < |ino| && ino'[n].kind == ino[n].kind
    ensures InOrder(disk', ino', owner', live, torn', logs, s)
  {
    NumbersFit(disk, ino, live, torn);
    NumbersFit(disk', ino', live, torn');
    hide FsckBut, Settled, Inodes, T.Tree, Kept, Meaning, Logged;
    FileLogged(disk, ino, live, logs, disk', ino', n);
  }

  /** A creation that runs out of space leaves the logs and the tree as they are. */
  lemma FullInOrder(disk: Disk, ino: seq<Dinode>, owner: Owners, live: set<nat>, torn: set<nat>, logs: Logs, s: T.Shape,
                    disk': Disk, ino': seq<Dinode>, owner': Owners, torn': set<nat>, d: nat)
    requires InOrder(disk, ino, owner, live, torn, logs, s) && d in logs
    requires FsOwnership.Fsck(disk', ino', owner') && Settled(owner') && Inodes(disk', ino', live, torn')
    requires d < |ino'| && ino'[d].kind == I_DIR && HasLog(disk', ino', d, logs[d])
    requires Kept(disk, ino, disk', ino', live - {d})
    ensures InOrder(disk', ino', owner', live, torn', logs, s)
  {
    NumbersFit(disk, ino, live, torn);
    NumbersFit(disk', ino', live, torn');
    LogOf(disk, ino, live, logs, d);
    hide FsckBut, Settled, Inodes, T.Tree, Kept, Meaning, Logged, HasLog, Fits, Unique;
    FullLogged(disk, ino, live, logs, disk', ino', d);
  }

  lemma SameInOrder(disk: Disk, ino: seq<Dinode>, owner: Owners, live: set<nat>, torn: set<nat>, logs: Logs, s: T.Shape,
                    disk': Disk, ino': seq<Dinode>, owner': Owners)
    requires InOrder(disk, ino, owner, live, torn, logs, s) && disk' == disk && ino' == ino && owner' == owner
    ensures InOrder(disk', ino', owner', live, torn, logs, s)
  {}

  lemma TornInOrder(disk: Disk, ino: seq<Dinode>, owner: Owners, live: set<nat>, torn: set<nat>, logs: Logs,
                    s: T.Shape, n: nat)
    requires InOrder(disk, ino, owner, live, torn, logs, s) && n in live
    ensures n < |ino| && InOrder(disk, ino, owner, live, Torn(torn, disk, ino[n], n), logs, s)
  {
    hide FsckBut, Settled, Inodes, T.Tree, Meaning, Logged, Torn;
    InodesTorn(disk, ino, live, torn, n);
  }

  lemma TightOther(disk: Disk, ino: seq<Dinode>, disk': Disk, ino': seq<Dinode>, n: nat, m: nat)
    requires OthersSame(disk, ino, disk', ino', n) && m < |ino| && m != n
    ensures |ino'| == |ino| && ino'[m] == ino[m] && (Tight(disk', ino'[m]) <==> Tight(disk, ino[m]))
  {
    hide Ptr, BlockView, EndBlock, SlotOf;
  }

  lemma FullLogged(disk: Disk, ino: seq<Dinode>, live: set<nat>, logs: Logs, disk': Disk, ino': seq<Dinode>, d: nat)
    requires Logged(disk, ino, live, logs) && d in logs && (forall m :: m in live ==> m < |ino| == |ino'|)
    requires ino'[d].kind == I_DIR && LogAt(disk', ino', d, logs[d])
    requires Kept(disk, ino, disk', ino', live - {d})
    ensures Logged(disk', ino', live, logs)
  {
    hide LogAt, Content;
    forall e | e in logs && e != d ensures LogAt(disk', ino', e, logs[e]) {
      KeptLogAt(disk, ino, disk', ino', live - {d}, e, logs[e]);
    }
    forall e | e in live - {d} ensures ino'[e] == ino[e] {}
    hide Kept;
    forall e ensures e in logs <==> e in live && e < |ino'| && ino'[e].kind == I_DIR {
      assert e in live - {d} ==> ino'[e] == ino[e];
    }
  }

  lemma OthersIndex(disk: Disk, ino: seq<Dinode>, disk': Disk, ino': seq<Dinode>, n: nat)
    requires OthersSame(disk, ino, disk', ino', n)
    ensures |ino'| == |ino|
  {}

  // ---- testfs_pwd ----

  function Depth(s: T.Shape, n: nat): nat { if n in s.depth then s.depth[n] else 0 }

  /** The directory above d, and the only name d has there. */
  ghost predicate UpFrom(logs: Logs, s: T.Shape, d: nat) {
    var p := T.ParentOf(s, d);
    && d in logs && p in logs
    && FindUsed(logs[d], DOTDOT) < |logs[d]| && logs[d][FindUsed(logs[d], DOTDOT)].inodeNr == p
    && (p == d <==> d == 0)
    && (d != 0 ==> Depth(s, p) < Depth(s, d) && d in s.home && OnlyRecord(logs[p], d, s.home[d].name))
  }

  /** Records for inode d exist, and all have this name. */
  predicate OnlyRecord(es: seq<Dirent>, d: nat, name: Bytes) {
    && (exists k :: 0 <= k < |es| && es[k].inodeNr == d)
    && (forall k :: 0 <= k < |es| && es[k].inodeNr == d ==> es[k].name == name)
  }

  lemma Above(live: set<nat>, logs: Logs, s: T.Shape, d: nat)
    requires T.Tree(live, Meaning(logs), s) && d in logs && Unique(logs[d])
    requires T.ParentOf(s, d) in logs ==> Unique(logs[T.ParentOf(s, d)])
    ensures d in live && UpFrom(logs, s, d)
  {
    var p := T.ParentOf(s, d);
    hide T.Tree, Unique, FindUsed, OnlyRecord, Sense;
    T.ParentAbove(live, Meaning(logs), s, d);
    T.DirLive(live, Meaning(logs), s, d);
    Look(logs, d, DOTDOT);
    if d != 0 {
      AboveRecord(live, logs, s, d);
      T.HomeEntry(live, Meaning(logs), s, d);
    }
  }

  lemma AboveRecord(live: set<nat>, logs: Logs, s: T.Shape, d: nat)
    requires && T.Tree(live, Meaning(logs), s) && d in logs && d != 0 && d in live && T.ParentOf(s, d) in logs
             && Unique(logs[T.ParentOf(s, d)])
    ensures d in s.home && OnlyRecord(logs[T.ParentOf(s, d)], d, s.home[d].name)
  {
    hide T.Tree, Unique;
    T.HomeEntry(live, Meaning(logs), s, d);
    var es, dirs, name := logs[T.ParentOf(s, d)], Meaning(logs), s.home[d].name;
    assert dirs[T.ParentOf(s, d)] == Names(es);
    var k := NamesOf(es, name);
    hide Names, Meaning;
    forall j | 0 <= j < |es| && es[j].inodeNr == d ensures es[j].name == name {
      NamesAt(es, j);
      T.EntryAbove(live, dirs, s, d, es[j].name);
    }
  }
}
