/** The content of a file as bytes: a sparse array over all addressable positions. */
module FsBytes {
  import opened FsLayout
  import opened FsCodec
  import opened Arith
  import opened FsOwnership

  /** Bytes a file can address. */
  function MaxFile(): nat { NR_MAX_BLOCK * BLOCK_SIZE }

  /** The inode's bytes are those of (disk, d), except that `data` stands at `at`. */
  ghost predicate BytesUpdated(disk: Disk, d: Dinode, disk': Disk, d': Dinode, at: nat, data: Bytes) {
    && |d.direct| == |d'.direct| == NR_DIRECT_BLOCKS
    && forall p: nat :: BlockNr(p) < NR_MAX_BLOCK ==>
         ByteAt(disk', d', p) == if at <= p < at + |data| then data[p - at] else ByteAt(disk, d, p)
  }

  /** All inodes but n are unchanged, store the same block numbers and hold what they
      held. */
  ghost predicate OthersSame(disk: Disk, ino: seq<Dinode>, disk': Disk, ino': seq<Dinode>, n: nat) {
    && |ino'| == |ino| && Sized(ino) && Sized(ino')
    && (forall m :: 0 <= m < |ino| && m != n ==> ino'[m] == ino[m])
    && (forall m, l :: 0 <= m < |ino| && m != n && 0 <= l < NR_MAX_BLOCK ==>
          BlockView(disk', ino'[m], l) == BlockView(disk, ino[m], l))
    && (forall m, s :: 0 <= m < |ino| && m != n && SlotOk(s) ==>
          Ptr(disk', ino'[m], s) == Ptr(disk, ino[m], s))
  }

  lemma OthersSameThen(disk: Disk, ino: seq<Dinode>, disk1: Disk, ino1: seq<Dinode>, disk2: Disk, ino2: seq<Dinode>,
                       n: nat)
    requires OthersSame(disk, ino, disk1, ino1, n) && OthersSame(disk1, ino1, disk2, ino2, n)
    ensures OthersSame(disk, ino, disk2, ino2, n)
  {
    hide BlockView;
    forall m, l | 0 <= m < |ino| && m != n && 0 <= l < NR_MAX_BLOCK
      ensures BlockView(disk2, ino2[m], l) == BlockView(disk, ino[m], l)
    {
      assert BlockView(disk1, ino1[m], l) == BlockView(disk, ino[m], l);
    }
    hide Ptr;
    forall m, s | 0 <= m < |ino| && m != n && SlotOk(s)
      ensures Ptr(disk2, ino2[m], s) == Ptr(disk, ino[m], s)
    {
      assert Ptr(disk1, ino1[m], s) == Ptr(disk, ino[m], s);
    }
  }

  /** Files that agree block by block agree byte by byte. */
  lemma SameBlocksSameBytes(disk: Disk, d: Dinode, disk': Disk, d': Dinode)
    requires |d.direct| == |d'.direct| == NR_DIRECT_BLOCKS
    requires forall l :: 0 <= l < NR_MAX_BLOCK ==> BlockView(disk', d', l) == BlockView(disk, d, l)
    ensures BytesUpdated(disk, d, disk', d', 0, [])
  {
    hide BlockView, BlockNr, BlockIx;
    assert forall p: nat :: BlockNr(p) < NR_MAX_BLOCK ==> ByteAt(disk', d', p) == ByteAt(disk, d, p);
  }

  /** A block with `data` copied in at `ix`: memcpy(block + ix, data). */
  function Splice(block: Block, ix: nat, data: Bytes): Block
    requires ix + |data| <= BLOCK_SIZE
  {
    block[..ix] + data + block[ix + |data|..]
  }

  /** Replacing part of block l replaces the bytes from l * BLOCK_SIZE + ix on. */
  lemma SpliceUpdates(disk: Disk, d: Dinode, disk': Disk, d': Dinode, l: nat, ix: nat, data: Bytes)
    requires && |d.direct| == |d'.direct| == NR_DIRECT_BLOCKS && l < NR_MAX_BLOCK && ix + |data| <= BLOCK_SIZE
             && ix < BLOCK_SIZE
    requires forall k :: 0 <= k < NR_MAX_BLOCK ==>
               BlockView(disk', d', k) ==
                 if k == l then Splice(BlockView(disk, d, l), ix, data) else BlockView(disk, d, k)
    ensures BytesUpdated(disk, d, disk', d', PositionOf(l, ix), data)
  {
    hide BlockView, BlockNr, BlockIx, PositionOf;
    var at := PositionOf(l, ix);
    forall p: nat | BlockNr(p) < NR_MAX_BLOCK
      ensures ByteAt(disk', d', p) == if at <= p < at + |data| then data[p - at] else ByteAt(disk, d, p)
    {
      InBlock(p, l, ix, |data|);
    }
  }

  /** A position lies in a range of block l exactly when its block is l and its
      offset lies in the range. */
  lemma InBlock(p: nat, l: nat, ix: nat, len: nat)
    requires ix + len <= BLOCK_SIZE
    ensures PositionOf(l, ix) <= p < PositionOf(l, ix) + len <==> BlockNr(p) == l && ix <= BlockIx(p) < ix + len
    ensures BlockNr(p) == l ==> p - PositionOf(l, ix) == BlockIx(p) - ix
  {
    Split(BLOCK_SIZE, p, 0);
    TimesMonotone(0, l, BLOCK_SIZE);
    if l * BLOCK_SIZE <= p < l * BLOCK_SIZE + BLOCK_SIZE {
      DivMod(BLOCK_SIZE, l, p - l * BLOCK_SIZE);
    }
  }

  /** Two adjacent updates make one. */
  lemma UpdatedThen(disk: Disk, d: Dinode, disk1: Disk, d1: Dinode, disk2: Disk, d2: Dinode, at: nat, a: Bytes,
                    b: Bytes)
    requires BytesUpdated(disk, d, disk1, d1, at, a) && BytesUpdated(disk1, d1, disk2, d2, at + |a|, b)
    ensures BytesUpdated(disk, d, disk2, d2, at, a + b)
  {
    hide ByteAt;
  }

  // ---- slices ----

  /** Byte p of the file, zero outside the addressable range. */
  function FileByte(disk: Disk, d: Dinode, p: nat): byte {
    if |d.direct| == NR_DIRECT_BLOCKS && BlockNr(p) < NR_MAX_BLOCK then ByteAt(disk, d, p) else 0
  }

  /** Past the end of the file all bytes are zero. */
  ghost predicate ZeroBeyond(disk: Disk, d: Dinode) {
    forall p: nat :: d.size <= p ==> FileByte(disk, d, p) == 0
  }

  /** A write whose bytes lie below the new end keeps what is beyond zero. */
  lemma WrittenZero(disk: Disk, d: Dinode, disk': Disk, d': Dinode, at: nat, data: Bytes)
    requires BytesUpdated(disk, d, disk', d', at, data) && ZeroBeyond(disk, d)
    requires d.size <= d'.size && (data != [] ==> at + |data| <= d'.size)
    ensures ZeroBeyond(disk', d')
  {
    hide ByteAt, BlockNr;
    forall p: nat | d'.size <= p ensures FileByte(disk', d', p) == 0 {
      assert FileByte(disk, d, p) == 0;
    }
  }

  /** A write that keeps the size leaves zeros past the end exactly if all that it stores
      there is zero. */
  lemma StoredZeroIff(disk: Disk, d: Dinode, disk': Disk, d': Dinode, at: nat, data: Bytes)
    requires BytesUpdated(disk, d, disk', d', at, data) && ZeroBeyond(disk, d) && d'.size == d.size
    requires data == [] || at + |data| <= MaxFile()
    ensures ZeroBeyond(disk', d') <==> ZeroFrom(data, d.size - at)
  {
    hide ByteAt, BlockNr, MaxFile;
    forall k: nat | k < |data| ensures FileByte(disk', d', at + k) == data[k] { BlockNrBelow(at + k); }
    forall p: nat | d.size <= p ensures FileByte(disk', d', p) == if at <= p < at + |data| then data[p - at] else 0 {
      assert FileByte(disk, d, p) == 0;
    }
  }

  /** The bytes from position `from` on are zero. */
  ghost predicate ZeroFrom(data: Bytes, from: int) {
    forall k: nat :: from <= k < |data| ==> data[k] == 0
  }

  /** A write at `at` finds nothing but zeros between the end of the file and its start. */
  ghost predicate GapZero(disk: Disk, d: Dinode, at: nat) {
    forall p: nat :: d.size <= p < at ==> FileByte(disk, d, p) == 0
  }

  lemma SameBlocksZero(disk: Disk, d: Dinode, disk': Disk, d': Dinode)
    requires |d.direct| == |d'.direct| == NR_DIRECT_BLOCKS && d'.size == d.size && ZeroBeyond(disk, d)
    requires forall l :: 0 <= l < NR_MAX_BLOCK ==> BlockView(disk', d', l) == BlockView(disk, d, l)
    ensures ZeroBeyond(disk', d')
  {
    SameBlocksSameBytes(disk, d, disk', d');
    hide BlockView;
    WrittenZero(disk, d, disk', d', 0, []);
  }

  /** The len bytes of the file from position start. */
  function Slice(disk: Disk, d: Dinode, start: nat, len: nat): (s: Bytes)
    ensures |s| == len && forall k :: 0 <= k < len ==> s[k] == FileByte(disk, d, start + k)
  {
    seq<byte>(len, k requires 0 <= k < len => FileByte(disk, d, start + k))
  }

  /** A slice grows by the bytes of a block. */
  lemma SliceStep(disk: Disk, d: Dinode, start: nat, done: nat, nr: nat, ix: nat, len: nat)
    requires |d.direct| == NR_DIRECT_BLOCKS && nr < NR_MAX_BLOCK && ix + len <= BLOCK_SIZE
    requires PositionOf(nr, ix) == start + done
    ensures Slice(disk, d, start, done) + BlockView(disk, d, nr)[ix..ix + len] == Slice(disk, d, start, done + len)
  {
    hide BlockView, BlockNr, BlockIx, PositionOf;
    var all := Slice(disk, d, start, done + len);
    forall k: nat | done <= k < done + len ensures all[k] == BlockView(disk, d, nr)[ix + (k - done)] {
      InBlock(start + k, nr, ix, len);
    }
    assert all[done..] == BlockView(disk, d, nr)[ix..ix + len];
    assert all[..done] == Slice(disk, d, start, done);
  }

  /** What a write stores is what a read of the same range returns; a range that the
      write does not touch reads as before. */
  lemma SliceUpdated(disk: Disk, d: Dinode, disk': Disk, d': Dinode, at: nat, data: Bytes, start: nat, len: nat)
    requires BytesUpdated(disk, d, disk', d', at, data)
    ensures BlockNr(at + |data| - (if |data| == 0 then 0 else 1)) < NR_MAX_BLOCK ==>
              Slice(disk', d', at, |data|) == data
    ensures start + len <= at || at + |data| <= start ==> Slice(disk', d', start, len) == Slice(disk, d, start, len)
  {
    hide ByteAt, BlockNr;
    if BlockNr(at + |data| - (if |data| == 0 then 0 else 1)) < NR_MAX_BLOCK {
      forall k: nat | k < |data| ensures Slice(disk', d', at, |data|)[k] == data[k] {
        BlockNrMonotone(at + k, at + |data| - 1);
      }
    }
    if start + len <= at || at + |data| <= start {
      forall k: nat | k < len ensures Slice(disk', d', start, len)[k] == Slice(disk, d, start, len)[k] {}
    }
  }

  lemma BlockNrMonotone(p: nat, q: nat)
    requires p <= q
    ensures BlockNr(p) <= BlockNr(q)
  {
    Split(BLOCK_SIZE, p, 0);
    Split(BLOCK_SIZE, q, 0);
    if BlockNr(q) < BlockNr(p) { Below(BLOCK_SIZE, BlockNr(q), q % BLOCK_SIZE, BlockNr(p), p % BLOCK_SIZE); }
  }

  lemma BlockNrBelow(p: nat)
    ensures p < MaxFile() <==> BlockNr(p) < NR_MAX_BLOCK
  {
    Split(BLOCK_SIZE, p, NR_MAX_BLOCK);
  }

  /** A file of another inode reads as before. */
  lemma SliceOther(disk: Disk, ino: seq<Dinode>, disk': Disk, ino': seq<Dinode>, n: nat, m: nat, start: nat, len: nat)
    requires OthersSame(disk, ino, disk', ino', n) && m < |ino| && m != n
    ensures Slice(disk', ino'[m], start, len) == Slice(disk, ino[m], start, len)
  {
    hide BlockView, BlockNr, BlockIx;
    forall k: nat | k < len ensures Slice(disk', ino'[m], start, len)[k] == Slice(disk, ino[m], start, len)[k] {
      if BlockNr(start + k) < NR_MAX_BLOCK {
        assert BlockView(disk', ino'[m], BlockNr(start + k)) == BlockView(disk, ino[m], BlockNr(start + k));
      }
    }
  }
}
