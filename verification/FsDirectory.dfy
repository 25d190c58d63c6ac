/** fs/dir.c: reading and changing the records of one directory. */
module FsDirectory {
  import opened Options
  import opened FsLayout
  import opened FsCodec
  import opened Arith
  import opened FsBitmap
  import opened FsOwnership
  import opened FsSuper
  import opened FsInode
  import opened FsAllocate
  import opened FsBytes
  import opened FsSpace
  import opened FsReadWrite
  import opened FsFiles
  import opened FsDirLog

  const EINVAL: int := 22
  const ENOTEMPTY: int := 39
  const ENOTDIR: int := 20

  /** The bytes of inode n are the encoded log es. */
  ghost predicate HasLog(disk: Disk, ino: seq<Dinode>, n: nat, es: seq<Dirent>) {
    && n < |ino| && 0 <= ino[n].size <= MaxFile()
    && LogOk(es) && Content(disk, ino, n) == EncodeLog(es)
  }

  /** The bytes are the log es and then record e, cut off at the last addressable byte. */
  ghost predicate CutShort(disk: Disk, ino: seq<Dinode>, n: nat, es: seq<Dirent>, e: Dirent) {
    && n < |ino| && LogOk(es) && EntryOk(e)
    && |EncodeLog(es)| < MaxFile() < |EncodeLog(es)| + |EncodeEntry(e)|
    && Content(disk, ino, n) == EncodeLog(es) + EncodeEntry(e)[..MaxFile() - |EncodeLog(es)|]
  }

  /** They are the bytes of no log. */
  lemma CutHasNoLog(disk: Disk, ino: seq<Dinode>, n: nat, es: seq<Dirent>, e: Dirent, fs: seq<Dirent>)
    requires CutShort(disk, ino, n, es, e)
    ensures !HasLog(disk, ino, n, fs)
  {
    hide EncodeEntry, EncodeLog, Content, MaxFile;
    if LogOk(fs) { CutIsNoLog(es, e, MaxFile() - |EncodeLog(es)|, fs); }
  }

  // ---- reading ----

  /** Part of the content is the slice a read of that range returns. */
  lemma ContentPart(disk: Disk, ino: seq<Dinode>, n: nat, start: nat, len: nat)
    requires n < |ino| && 0 <= ino[n].size && start + len <= ino[n].size
    ensures |Content(disk, ino, n)| == ino[n].size
    ensures Slice(disk, ino[n], start, len) == Content(disk, ino, n)[start..start + len]
  {
    hide FileByte;
  }

  lemma InFile(start: nat, size: nat)
    requires start < size <= MaxFile()
    ensures BlockNr(start) < NR_MAX_BLOCK
  {
    BlockNrBelow(start);
  }

  /** The record at `offset` and the offset of the next one; nothing at the end of the
      log. The offset is that of record k. */
  method NextDirent(t: InodeTable, dir: Inode, offset: nat, ghost es: seq<Dirent>, ghost k: nat)
    returns (d: Option<Dirent>, next: nat)
    requires t.Cached(dir) && dir.d.kind == I_DIR
    requires HasLog(t.sb.disk, t.ino, dir.nr, es) && k <= |es| && offset == OffsetOf(es, k)
    requires t.Valid() && t.Fsck()
    ensures k < |es| ==> d == Some(es[k]) && next == OffsetOf(es, k + 1)
    ensures k == |es| ==> d == None && next == offset
  {
    hide SuperBlock.Valid, BlockView, ByteAt, Accounts, DiskInode, InodeTable.Coherent, DinodeFits, InodeTable.Valid,
         GetInt, FsckBut, Ptr, SlotOf, SuperBlock.Available, BlockNr, MaxFile, EncodeEntry, EncodeLog, Slice, Content;
    ghost var content := Content(t.sb.disk, t.ino, dir.nr);
    ContentPart(t.sb.disk, t.ino, dir.nr, 0, 0);
    OffsetEnd(es);
    if k < |es| {
      EntryAt(es, k);
      EntryFields(es[k]);
      CStringOf(es[k].name);
    }
    if offset >= dir.d.size {
      return None, offset;
    }
    InFile(offset, dir.d.size);
    var ret, fields := ReadData(t, dir, offset, 8);
    ContentPart(t.sb.disk, t.ino, dir.nr, offset, 8);
    HeaderOf(content, offset, EncodeEntry(es[k]));
    var nameLen, inodeNr := GetInt(fields, 0), GetInt(fields, 1);
    assert nameLen > 0;
    next := offset + 8;
    InFile(next, dir.d.size);
    var name;
    ret, name := ReadData(t, dir, next, nameLen);
    ContentPart(t.sb.disk, t.ino, dir.nr, next, nameLen);
    next := next + nameLen;
    return Some(Dirent(inodeNr, CString(name))), next;
  }

  /** The fixed part and the rest of a record inside the content. */
  lemma HeaderOf(content: Bytes, offset: nat, e: Bytes)
    requires 8 <= |e| && offset + |e| <= |content| && content[offset..offset + |e|] == e
    ensures && GetInt(content[offset..offset + 8], 0) == GetInt(e, 0)
            && GetInt(content[offset..offset + 8], 1) == GetInt(e, 1)
    ensures content[offset + 8..offset + |e|] == e[8..]
  {
    hide Get32;
    assert content[offset..offset + 8] == content[offset..offset + |e|][..8] == e[..8];
    assert e[..8][0..4] == e[0..4] && e[..8][4..8] == e[4..8];
  }

  /** The inode number a name stands for, or -ENOENT. */
  method DirNameToInodeNr(t: InodeTable, dir: Inode, name: Bytes, ghost es: seq<Dirent>) returns (ret: int)
    requires t.Cached(dir) && dir.d.kind == I_DIR
    requires HasLog(t.sb.disk, t.ino, dir.nr, es)
    requires t.Valid() && t.Fsck()
    ensures ret == if FindUsed(es, name) < |es| then es[FindUsed(es, name)].inodeNr else -ENOENT
  {
    hide SuperBlock.Valid, InodeTable.Valid, InodeTable.Fsck, HasLog, EncodeLog;
    ret := -ENOENT;
    var offset := 0;
    ghost var k: nat := 0;
    LogStart(t.sb.disk, t.ino, dir.nr, es);
    while ret < 0
      invariant ret < 0 ==> ret == -ENOENT && k <= FindUsed(es, name) && offset == OffsetOf(es, k)
      invariant ret >= 0 ==> FindUsed(es, name) < |es| && ret == es[FindUsed(es, name)].inodeNr
      decreases ret < 0, |es| - k
    {
      var d, next := NextDirent(t, dir, offset, es, k);
      offset := next;
      if d.None? {
        break;
      }
      if d.value.inodeNr < 0 || d.value.name != name {
        k := k + 1;
        continue;
      }
      ret := d.value.inodeNr;
    }
  }

  lemma LogStart(disk: Disk, ino: seq<Dinode>, n: nat, es: seq<Dirent>)
    requires HasLog(disk, ino, n, es)
    ensures LogOk(es) && OffsetOf(es, 0) == 0 && OffsetOf(es, |es|) == ino[n].size
  {
    OffsetEnd(es);
    ContentPart(disk, ino, n, 0, 0);
    hide EncodeLog, Content;
  }

  /** The first record that names an inode; free records name none. */
  method FindDirent(t: InodeTable, dir: Inode, inodeNr: nat, ghost es: seq<Dirent>) returns (r: Option<Dirent>)
    requires t.Cached(dir) && dir.d.kind == I_DIR
    requires HasLog(t.sb.disk, t.ino, dir.nr, es)
    requires t.Valid() && t.Fsck()
    ensures r.None? ==> forall k :: 0 <= k < |es| ==> es[k].inodeNr != inodeNr
    ensures r.Some? ==> r.value in es && r.value.inodeNr == inodeNr
  {
    hide SuperBlock.Valid, InodeTable.Valid, InodeTable.Fsck, HasLog, EncodeLog;
    var offset := 0;
    ghost var k: nat := 0;
    LogStart(t.sb.disk, t.ino, dir.nr, es);
    while true
      invariant k <= |es| && offset == OffsetOf(es, k)
      invariant forall j :: 0 <= j < k ==> es[j].inodeNr != inodeNr
      decreases |es| - k
    {
      var d, next := NextDirent(t, dir, offset, es, k);
      offset := next;
      if d.None? {
        return None;
      }
      if d.value.inodeNr == inodeNr {
        return d;
      }
      k := k + 1;
    }
  }

  // ---- writing ----

  /** The content after a write at or before the end. */
  lemma ContentSpliced(disk: Disk, ino: seq<Dinode>, disk': Disk, ino': seq<Dinode>, n: nat, at: nat, data: Bytes)
    requires n < |ino| == |ino'| && 0 <= at <= ino[n].size && BytesUpdated(disk, ino[n], disk', ino'[n], at, data)
    requires at + |data| <= MaxFile() && ino[n].size <= MaxFile()
    requires ino'[n].size == if ino[n].size < at + |data| then at + |data| else ino[n].size
    ensures var old_, end := Content(disk, ino, n), at + |data|;
            && at <= |old_|
            && Content(disk', ino', n) == old_[..at] + data + if end <= |old_| then old_[end..] else []
  {
    hide ByteAt, BlockNr, MaxFile;
    var was, now, end := Content(disk, ino, n), Content(disk', ino', n), at + |data|;
    assert |was| == ino[n].size && |now| == ino'[n].size;
    forall p: nat | p < |now| ensures now[p] == if at <= p < end then data[p - at] else was[p] {
      BlockNrBelow(p);
      assert now[p] == FileByte(disk', ino'[n], p);
    }
  }

  /** A write at the end of the file that does not extend it leaves the content. */
  lemma ContentBeyond(disk: Disk, ino: seq<Dinode>, disk': Disk, ino': seq<Dinode>, n: nat, at: nat, data: Bytes)
    requires n < |ino| == |ino'| && 0 <= ino[n].size <= at && BytesUpdated(disk, ino[n], disk', ino'[n], at, data)
    requires ino[n].size <= MaxFile() && ino'[n].size == ino[n].size
    ensures Content(disk', ino', n) == Content(disk, ino, n)
  {
    hide ByteAt, BlockNr, MaxFile;
    var was, now := Content(disk, ino, n), Content(disk', ino', n);
    forall p: nat | p < |now| ensures now[p] == was[p] {
      BlockNrBelow(p);
      assert now[p] == FileByte(disk', ino'[n], p);
    }
  }

  /** Files stay in order when one of them is written. */
  lemma InodesWritten(disk: Disk, ino: seq<Dinode>, live: set<nat>, torn: set<nat>, disk': Disk, ino': seq<Dinode>,
                      n: nat)
    requires && Inodes(disk, ino, live, torn) && n in live && OthersSame(disk, ino, disk', ino', n)
             && FileOk(disk', ino'[n])
    ensures Inodes(disk', ino', live, torn + {n})
    ensures n in torn || Whole(disk', ino'[n]) ==> Inodes(disk', ino', live, torn)
  {
    hide OthersSame, FileOk, Whole;
    InodesAdd(disk, ino, live, torn, disk', ino', n);
    assert live + {n} == live;
    assert n in torn ==> torn + {n} == torn;
  }

  /** A write that begins inside the file or at its end makes no hole. */
  lemma SolidWritten(disk: Disk, d: Dinode, available: int, disk': Disk, d': Dinode, available': int, start: nat,
                     len: nat)
    requires Solid(disk, d) && start <= d.size && WriteMaps(disk, d, available, disk', d', available', start, len)
    requires 0 <= d'.size && (d'.size <= d.size || d'.size <= start + len)
    requires Fills(disk, d, available, start, len) ==> d'.size == d.size
    ensures Solid(disk', d')
  {
    forall k: nat | k < NR_MAX_BLOCK && k < EndBlock(d'.size) ensures Ptr(disk', d', SlotOf(k)) != 0 {
      SolidAt(disk, d, available, disk', d', available', start, len, k);
    }
  }

  lemma SolidAt(disk: Disk, d: Dinode, available: int, disk': Disk, d': Dinode, available': int, start: nat, len: nat,
                k: nat)
    requires Solid(disk, d) && start <= d.size && WriteMaps(disk, d, available, disk', d', available', start, len)
    requires 0 <= d'.size && (d'.size <= d.size || d'.size <= start + len)
    requires Fills(disk, d, available, start, len) ==> d'.size == d.size
    requires k < NR_MAX_BLOCK && k < EndBlock(d'.size)
    ensures Ptr(disk', d', SlotOf(k)) != 0
  {
    hide Ptr, SlotOf, EndBlock, Needs, Fills, WriteNeeds, WriteStop, Visited, PositionOf, BlockNr, LastBlock;
    EndBlockAbove(d'.size, k);
    EndBlockAbove(d.size, k);
    if k < EndBlock(d.size) {
      assert Ptr(disk, d, SlotOf(k)) != 0;
    } else {
      BlockOfPosition(k + 1, start);
      PositionNextBlock(k);
      EndsBehind(k, start, len);
      VisitedData(BlockNr(start), WriteEnd(start, len), k);
    }
  }

  lemma PositionNextBlock(k: nat)
    ensures PositionOf(k + 1, 0) == PositionOf(k, 0) + BLOCK_SIZE
  {
    assert (k + 1) * BLOCK_SIZE == k * BLOCK_SIZE + BLOCK_SIZE;
  }

  lemma EndsBehind(k: nat, start: nat, len: nat)
    requires k < NR_MAX_BLOCK && PositionOf(k, 0) < start + len
    ensures k < WriteEnd(start, len)
  {
    BlockOfPosition(k, start + len - if len == 0 then 0 else 1);
    hide PositionOf;
  }

  /** Block k begins at or before a position exactly if it is not behind its block. */
  lemma BlockOfPosition(k: nat, p: nat)
    ensures PositionOf(k, 0) <= p <==> k <= BlockNr(p)
  {
    Split(BLOCK_SIZE, p, k);
    TimesMonotone(0, k, BLOCK_SIZE);
    if k <= BlockNr(p) { TimesMonotone(k, BlockNr(p), BLOCK_SIZE); }
    if BlockNr(p) < k { Below(BLOCK_SIZE, BlockNr(p), p % BLOCK_SIZE, k, 0); }
  }

  /** Writing inside a file without holes needs no block. */
  lemma InsideNeedsNothing(disk: Disk, d: Dinode, start: nat, len: nat)
    requires Solid(disk, d) && 0 < len && start + len <= d.size
    ensures WriteNeeds(disk, d, start, len) == 0
  {
    hide Ptr, SlotOf, EndBlock, Needs;
    forall k: nat | BlockNr(start) <= k < WriteEnd(start, len) ensures Ptr(disk, d, SlotOf(k)) != 0 {
      BlockOfPosition(k, start + len - 1);
      EndBlockAbove(d.size, k);
    }
    MappedNeedsNothing(disk, d, BlockNr(start), WriteEnd(start, len));
  }

  /** What a log needs for its offsets to be C ints and file positions. */
  predicate Fits(es: seq<Dirent>) { LogOk(es) && |EncodeLog(es)| <= MaxFile() && |EncodeLog(es)| < 0x8000_0000 }

  lemma OneBlock(start: nat, len: nat)
    requires 0 < len && start + len <= BLOCK_SIZE
    ensures BlockNr(start) == LastBlock(start, len) == 0
  {
    DivMod(BLOCK_SIZE, 0, start);
    DivMod(BLOCK_SIZE, 0, start + len - 1);
  }

  lemma DirFile(t: InodeTable, n: nat, torn: set<nat>)
    requires Files(t, torn) && n in t.sb.live && n < |t.ino| && t.ino[n].kind == I_DIR
    ensures Solid(t.sb.disk, t.ino[n]) && 0 <= t.ino[n].size <= MaxFile() && Settled(t.owner)
    ensures n !in torn ==> Whole(t.sb.disk, t.ino[n])
    ensures Inodes(t.sb.disk, t.ino, t.sb.live, torn)
  {
    hide FsckBut, Solid, Whole;
  }

  /** A write that starts past the last addressable byte needs nothing. */
  lemma NeedsPast(disk: Disk, d: Dinode, start: nat, len: nat)
    requires |d.direct| == NR_DIRECT_BLOCKS
    ensures BlockNr(start) >= NR_MAX_BLOCK ==> WriteNeeds(disk, d, start, len) == 0
  {
    hide StepCost, BlockNr;
  }

  /** Rewriting a record in place needs nothing. */
  lemma RecordInside(disk: Disk, ino: seq<Dinode>, n: nat, available: int, es: seq<Dirent>, k: nat, e: Dirent)
    requires HasLog(disk, ino, n, es) && k < |es| && Solid(disk, ino[n]) && |e.name| == |es[k].name| && 0 <= available
    ensures OffsetOf(es, k) + |e.name| + 9 <= |EncodeLog(es)| == ino[n].size
    ensures WriteNeeds(disk, ino[n], OffsetOf(es, k), |e.name| + 9) == 0
    ensures !Fills(disk, ino[n], available, OffsetOf(es, k), |e.name| + 9)
  {
    EntryAt(es, k);
    ContentSize(disk, ino, n);
    assert EntryOk(es[k]) && |EncodeEntry(es[k])| == |e.name| + 9;
    hide EncodeEntry, EncodeLog, Content, Solid, WriteNeeds, MaxFile, BlockNr;
    InsideNeedsNothing(disk, ino[n], OffsetOf(es, k), |e.name| + 9);
  }

  lemma InRangeStored(disk: Disk, d: Dinode, available: int, start: nat, len: nat)
    requires && |d.direct| == NR_DIRECT_BLOCKS && !Fills(disk, d, available, start, len) && 0 < len
             && start + len <= MaxFile()
    ensures StoredLength(disk, d, available, start, len) == len && BlockNr(start) < NR_MAX_BLOCK
  {
    BlockNrBelow(start);
    hide Fills, BlockNr, MaxFile;
  }

  /** What a write leaves; in a directory it begins at or before the end. */
  lemma FileWritten(disk: Disk, ino: seq<Dinode>, live: set<nat>, torn: set<nat>, available: int,
                   disk': Disk, ino': seq<Dinode>, available': int,
                   n: nat, start: nat, data: Bytes, ret: int, done: nat)
    requires Inodes(disk, ino, live, torn) && n in live && (ino[n].kind == I_DIR ==> start <= ino[n].size)
    requires OthersSame(disk, ino, disk', ino', n) && 0 < |data| < 0x8000_0000 && done <= |data|
    requires BytesUpdated(disk, ino[n], disk', ino'[n], start, data[..done])
    requires done == StoredLength(disk, ino[n], available, start, |data|)
    requires BlockNr(start) >= NR_MAX_BLOCK ==> ino' == ino && disk' == disk
    requires BlockNr(start) < NR_MAX_BLOCK ==>
               && WriteOutcome(ino[n], ino'[n], start, |data|, Fills(disk, ino[n], available, start, |data|), ret, done)
               && WriteMaps(disk, ino[n], available, disk', ino'[n], available', start, |data|)
               && (!Fills(disk, ino[n], available, start, |data|) && Tight(disk, ino[n]) ==> Tight(disk', ino'[n]))
    ensures Inodes(disk', ino', live, if Fills(disk, ino[n], available, start, |data|) then torn + {n} else torn)
  {
    hide OthersSame, ZeroBeyond, Solid, Tight, BytesUpdated, Fills, WriteMaps, BlockNr, MaxFile, BlockIx, NoInode;
    Int32Iff(|data|);
    BlockNrBelow(start);
    OthersSized(disk, ino, disk', ino', n);
    if BlockNr(start) < NR_MAX_BLOCK {
      if !Fills(disk, ino[n], available, start, |data|) {
        if n !in torn { WrittenZero(disk, ino[n], disk', ino'[n], start, data[..done]); }
      }
      if ino[n].kind == I_DIR {
        SolidWritten(disk, ino[n], available, disk', ino'[n], available', start, |data|);
      }
      InodesWritten(disk, ino, live, torn, disk', ino', n);
    } else {
      NeverFills(disk, ino[n], available, start, |data|);
    }
  }

  lemma OthersSized(disk: Disk, ino: seq<Dinode>, disk': Disk, ino': seq<Dinode>, n: nat)
    requires OthersSame(disk, ino, disk', ino', n)
    ensures |ino'| == |ino| && forall m: nat :: m < |ino| ==> |ino[m].direct| == |ino'[m].direct| == NR_DIRECT_BLOCKS
  {}

  lemma TakesNeeds(disk: Disk, d: Dinode, available: int, disk': Disk, d': Dinode, available': int, start: nat,
                   len: nat)
    requires WriteMaps(disk, d, available, disk', d', available', start, len) && !Fills(disk, d, available, start, len)
    ensures available' == available - WriteNeeds(disk, d, start, len)
  {}

  lemma NeverFills(disk: Disk, d: Dinode, available: int, start: nat, len: nat)
    requires |d.direct| == NR_DIRECT_BLOCKS && BlockNr(start) >= NR_MAX_BLOCK
    ensures !Fills(disk, d, available, start, len)
  {}

  /** Writes record e at `offset`: in place of record k of the same length, which needs no
      block, or after the last one. */
  method WriteDirent(t: InodeTable, dir: Inode, e: Dirent, offset: nat, ghost es: seq<Dirent>, ghost k: nat,
                     ghost torn: set<nat>)
    returns (ret: int)
    requires t.Cached(dir) && dir.nr in t.sb.live && dir.d.kind == I_DIR && EntryOk(e)
    requires HasLog(t.sb.disk, t.ino, dir.nr, es) && k <= |es| && offset == OffsetOf(es, k)
    requires k < |es| ==> |e.name| == |es[k].name|
    requires t.Valid() && Files(t, torn)
    modifies t`ino, t`owner, t.sb, t.sb.blockFreemap.v, dir`d, dir`dirty
    ensures t.Valid() && t.FsckSave(dir.nr) && Settled(t.owner) && (!t.Fsck() ==> Dangling(t, dir))
    ensures t.Cached(dir) && t.sb.live == old(t.sb.live) && dir.d.kind == I_DIR
    ensures OthersSame(old(t.sb.disk), old(t.ino), t.sb.disk, t.ino, dir.nr)
    ensures t.Fsck() <==> !(k == |es| && StrandsWrite(old(dir.d), old(t.sb.Available()), offset, |e.name| + 9))
    ensures var full := k == |es| && Fills(old(t.sb.disk), old(dir.d), old(t.sb.Available()), offset, |e.name| + 9);
            && (t.Fsck() ==> Files(t, if full then torn + {dir.nr} else torn))
            && (full ==>
                  && ret == -ENOSPC && HasLog(t.sb.disk, t.ino, dir.nr, es)
                  && (dir.dirty <==> old(dir.dirty) || 0 < old(t.sb.Available())))
            && (!full ==> t.Fsck())
            && (!full && offset + |e.name| + 9 <= MaxFile() ==>
                  && ret == |e.name| + 9 && dir.dirty
                  && HasLog(t.sb.disk, t.ino, dir.nr, if k < |es| then es[k := e] else es + [e]))
            // a record past the last addressable byte: positive EFBIG if it starts there
            && (!full && offset + |e.name| + 9 > MaxFile() ==>
                  && ret == (if offset < MaxFile() then -EFBIG else EFBIG)
                  && (ret == -EFBIG ==> CutShort(t.sb.disk, t.ino, dir.nr, es, e))
                  && (ret == EFBIG ==> HasLog(t.sb.disk, t.ino, dir.nr, es)))
            && (!full ==> t.sb.Available() == old(t.sb.Available()) -
                            if k == |es| then WriteNeeds(old(t.sb.disk), old(dir.d), offset, |e.name| + 9) else 0)
    ensures (ret == -ENOSPC && offset + |e.name| + 9 <= BLOCK_SIZE) || offset >= MaxFile() ==>
              t.sb.disk == old(t.sb.disk) && t.ino == old(t.ino) && t.owner == old(t.owner)
  {
    hide SuperBlock.Valid, BlockView, ByteAt, Accounts, DiskInode, InodeTable.Coherent, DinodeFits, InodeTable.Valid,
         GetInt, FsckBut, Own, Ptr, SlotOf, SuperBlock.Available, BlockNr, BlockIx, MaxFile, EncodeEntry, EncodeLog,
         Content, BytesUpdated, OthersSame, Tight, StrandsFrom, LastBlock, FileByte, Fills, WriteNeeds, WriteMaps,
         StoredLength, Solid, ZeroBeyond, Inodes, Dangling;
    ghost var n, disk, ino, live, d, available := dir.nr, t.sb.disk, t.ino, t.sb.live, dir.d, t.sb.Available();
    ghost var len := |e.name| + 9;
    LogStart(disk, ino, n, es);
    OffsetBelow(es, k);
    BlockNrBelow(offset);
    AvailableIsNat(t);
    DirFile(t, n, torn);
    NeedsPast(disk, d, offset, len);
    if k < |es| { RecordInside(disk, ino, n, available, es, k, e); }
    if offset + len <= BLOCK_SIZE { OneBlock(offset, len); }
    Int32Iff(len);
    var done;
    ret, done := WriteData(t, dir, EncodeEntry(e), offset);
    ghost var full := Fills(disk, d, available, offset, len);
    if BlockNr(offset) >= NR_MAX_BLOCK {
      NeverFills(disk, d, available, offset, len);
    } else if !full {
      TakesNeeds(disk, d, available, t.sb.disk, dir.d, t.sb.Available(), offset, len);
    }
    if full {
      ContentBeyond(disk, ino, t.sb.disk, t.ino, n, offset, EncodeEntry(e)[..done]);
      ContentSize(t.sb.disk, t.ino, n);
    } else if offset + len <= MaxFile() {
      InRangeStored(disk, d, available, offset, len);
      assert EncodeEntry(e)[..done] == EncodeEntry(e);
      ContentSpliced(disk, ino, t.sb.disk, t.ino, n, offset, EncodeEntry(e));
      if k < |es| {
        EncodeReplace(es, k, e);
      } else {
        EncodeAppend(es, e);
      }
      ContentSize(t.sb.disk, t.ino, n);
    } else if offset < MaxFile() {
      ContentSpliced(disk, ino, t.sb.disk, t.ino, n, offset, EncodeEntry(e)[..done]);
    }
    FileWritten(disk, ino, live, torn, available, t.sb.disk, t.ino, t.sb.Available(), n, offset, EncodeEntry(e), ret,
                done);
  }

  lemma OffsetBelow(es: seq<Dirent>, k: nat)
    requires LogOk(es) && k <= |es|
    ensures OffsetOf(es, k) <= OffsetOf(es, |es|) == |EncodeLog(es)|
  {
    EncodeLogSplit(es, k);
    OffsetEnd(es);
    hide EncodeLog;
  }

  lemma ContentSize(disk: Disk, ino: seq<Dinode>, n: nat)
    requires n < |ino| && 0 <= ino[n].size
    ensures |Content(disk, ino, n)| == ino[n].size
  {}

  /** The scan of testfs_add_dirent (fs/dir.c:98-109): it stops at the name, or at the
      first free record of its length, or at the end. */
  method ScanDirents(t: InodeTable, dir: Inode, name: Bytes, ghost es: seq<Dirent>)
    returns (ret: int, found: bool, pOffset: nat, ghost k: nat)
    requires t.Cached(dir) && dir.d.kind == I_DIR
    requires HasLog(t.sb.disk, t.ino, dir.nr, es)
    requires t.Valid() && t.Fsck()
    ensures k <= |es| && LogOk(es)
    ensures AddMeets(es, name) ==> ret == -EEXIST
    ensures !AddMeets(es, name) ==> ret == 0 && k == FindFree(es, |name|) && (found <==> k < |es|)
    ensures ret == 0 ==> pOffset == OffsetOf(es, k) && (found || pOffset == dir.d.size)
  {
    hide SuperBlock.Valid, InodeTable.Valid, HasLog, EncodeLog, EncodeEntry, InodeTable.Fsck, MaxFile;
    LogStart(t.sb.disk, t.ino, dir.nr, es);
    var offset := 0;
    pOffset, found, k, ret := 0, false, 0, 0;
    while ret == 0 && !found
      invariant k <= |es| && k <= FindUsed(es, name) && k <= FindFree(es, |name|)
      invariant !found && ret == 0 ==> offset == OffsetOf(es, k)
      invariant found ==>
                  && ret == 0
                  && k < |es|
                  && k == FindFree(es, |name|)
                  && pOffset == OffsetOf(es, k)
                  && !AddMeets(es, name)
      invariant ret != 0 ==> ret == -EEXIST && AddMeets(es, name)
      decreases ret == 0 && !found, |es| - k
    {
      pOffset := offset;
      var d, next := NextDirent(t, dir, offset, es, k);
      if d.None? {
        break;
      }
      offset := next;
      if d.value.inodeNr >= 0 && d.value.name == name {
        ret := -EEXIST;
      } else if d.value.inodeNr >= 0 || |d.value.name| + 1 != |name| + 1 {
        k := k + 1;
      } else {
        found := true;
      }
    }
  }

  /** Adding a record for a name of this length runs out of space; it takes so many blocks
      otherwise; and it loses the ownership invariant. Only a record at the end needs
      blocks. */
  ghost predicate AddFills(disk: Disk, d: Dinode, available: int, es: seq<Dirent>, len: nat)
    requires |d.direct| == NR_DIRECT_BLOCKS
  {
    FindFree(es, len) == |es| && 0 <= d.size && Fills(disk, d, available, d.size, len + 9)
  }

  ghost function AddNeeds(disk: Disk, d: Dinode, es: seq<Dirent>, len: nat): nat
    requires |d.direct| == NR_DIRECT_BLOCKS
  {
    if FindFree(es, len) == |es| && 0 <= d.size then WriteNeeds(disk, d, d.size, len + 9) else 0
  }

  ghost predicate AddStrands(d: Dinode, available: int, es: seq<Dirent>, len: nat) {
    FindFree(es, len) == |es| && 0 <= d.size && StrandsWrite(d, available, d.size, len + 9)
  }

  /** Adds a record for `name`, unless the scan meets the name first. */
  method AddDirent(t: InodeTable, dir: Inode, name: Bytes, inodeNr: nat, ghost es: seq<Dirent>, ghost torn: set<nat>)
    returns (ret: int)
    requires t.Cached(dir) && dir.nr in t.sb.live && dir.d.kind == I_DIR && EntryOk(Dirent(inodeNr, name))
    requires HasLog(t.sb.disk, t.ino, dir.nr, es) && Fits(es)
    requires t.Valid() && Files(t, torn)
    modifies t`ino, t`owner, t.sb, t.sb.blockFreemap.v, dir`d, dir`dirty
    ensures t.Valid() && t.FsckSave(dir.nr) && Settled(t.owner) && (!t.Fsck() ==> Dangling(t, dir))
    ensures t.Cached(dir) && t.sb.live == old(t.sb.live) && dir.d.kind == I_DIR
    ensures OthersSame(old(t.sb.disk), old(t.ino), t.sb.disk, t.ino, dir.nr)
    ensures AddMeets(es, name) ==>
              && ret == -EEXIST && dir.dirty == old(dir.dirty) && Files(t, torn)
              && t.sb.disk == old(t.sb.disk) && t.ino == old(t.ino) && t.owner == old(t.owner)
    ensures !AddMeets(es, name) ==>
              var full := AddFills(old(t.sb.disk), old(dir.d), old(t.sb.Available()), es, |name|);
              && (t.Fsck() <==> !AddStrands(old(dir.d), old(t.sb.Available()), es, |name|))
              && (t.Fsck() ==> Files(t, if full then torn + {dir.nr} else torn))
              && (full ==>
                    && ret == -ENOSPC && HasLog(t.sb.disk, t.ino, dir.nr, es)
                    && (dir.dirty <==> old(dir.dirty) || 0 < old(t.sb.Available())))
              && (!full ==>
                    && t.Fsck()
                    && t.sb.Available() == old(t.sb.Available()) - AddNeeds(old(t.sb.disk), old(dir.d), es, |name|))
              && (!full && InReach(Add(es, Dirent(inodeNr, name))) ==>
                    0 < ret && dir.dirty && HasLog(t.sb.disk, t.ino, dir.nr, Add(es, Dirent(inodeNr, name))))
              // a record past the last addressable byte: success is reported if nothing is written
              && (!full && !InReach(Add(es, Dirent(inodeNr, name))) ==>
                    && ret == (if old(dir.d).size < MaxFile() then -EFBIG else EFBIG)
                    && (ret == -EFBIG ==> CutShort(t.sb.disk, t.ino, dir.nr, es, Dirent(inodeNr, name)))
                    && (ret == EFBIG ==>
                          && HasLog(t.sb.disk, t.ino, dir.nr, es)
                          && t.sb.disk == old(t.sb.disk) && t.ino == old(t.ino) && t.owner == old(t.owner)))
    ensures ret == -ENOSPC && InOneBlock(Add(es, Dirent(inodeNr, name))) ==>
              t.sb.disk == old(t.sb.disk) && t.ino == old(t.ino) && t.owner == old(t.owner)
  {
    hide SuperBlock.Valid, InodeTable.Valid, Files, HasLog, EncodeLog, EncodeEntry, OthersSame, InodeTable.Fsck,
         InodeTable.FsckSave, MaxFile, Settled, Fills, WriteNeeds, StrandsWrite, Dangling, CutShort;
    FilesFsck(t, dir.nr, torn);
    OthersRefl(t, dir.nr);
    var found, pOffset;
    ghost var k;
    ret, found, pOffset, k := ScanDirents(t, dir, name, es);
    if ret < 0 {
      return ret;
    }
    LogStart(t.sb.disk, t.ino, dir.nr, es);
    AddedEnd(es, Dirent(inodeNr, name), k);
    ret := WriteDirent(t, dir, Dirent(inodeNr, name), pOffset, es, k, torn);
  }

  /** The log lies within the addressable bytes of a file. */
  predicate InReach(es: seq<Dirent>) { LogOk(es) && |EncodeLog(es)| <= MaxFile() }

  predicate InOneBlock(es: seq<Dirent>) { LogOk(es) && |EncodeLog(es)| <= BLOCK_SIZE }

  lemma FilesFsck(t: InodeTable, n: nat, torn: set<nat>)
    requires Files(t, torn)
    ensures t.Fsck() && t.FsckSave(n) && Settled(t.owner)
  {
    FsckIsSave(t.sb.disk, t.ino, t.owner, n);
  }

  lemma OthersRefl(t: InodeTable, n: nat)
    requires t.Fsck()
    ensures OthersSame(t.sb.disk, t.ino, t.sb.disk, t.ino, n)
  {}

  /** Where the record that Add puts at position k ends. */
  lemma AddedEnd(es: seq<Dirent>, e: Dirent, k: nat)
    requires LogOk(es) && EntryOk(e) && k == FindFree(es, |e.name|)
    ensures LogOk(Add(es, e))
    ensures k == |es| ==> OffsetOf(es, k) + |EncodeEntry(e)| == |EncodeLog(Add(es, e))|
    ensures k < |es| ==> OffsetOf(es, k) + |EncodeEntry(e)| <= |EncodeLog(Add(es, e))| == |EncodeLog(es)|
  {
    if k < |es| {
      EncodeReplace(es, k, e);
      EntryAt(es, k);
    } else {
      EncodeAppend(es, e);
      OffsetEnd(es);
    }
    hide EncodeEntry;
  }
}
