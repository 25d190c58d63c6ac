/** fs/super.c: the super block, the two freemaps and their write-through to the
    device. */
module FsSuper {
  import opened FsLayout
  import opened FsCodec
  import opened Arith
  import opened FsBitmap
  import opened FsOwnership

  // ---- struct dsuper_block ----

  datatype DSuper = DSuper(inodeFreemapStart: nat, blockFreemapStart: nat, inodeBlocksStart: nat, dataBlocksStart: nat,
                           usedInodeCount: nat, usedBlockCount: nat, maxFsBlocks: nat)

  /** The u32 fields stay below 2^31, the u64 field below 2^64. */
  predicate SuperFits(s: DSuper) {
    && s.inodeFreemapStart < 0x8000_0000 && s.blockFreemapStart < 0x8000_0000
    && s.inodeBlocksStart < 0x8000_0000 && s.dataBlocksStart < 0x8000_0000
    && s.usedInodeCount < 0x8000_0000 && s.usedBlockCount < 0x8000_0000
    && s.maxFsBlocks < 0x1_0000_0000_0000_0000
  }

  function SuperInts(s: DSuper): seq<s32>
    requires SuperFits(s)
  {
    [s.inodeFreemapStart, s.blockFreemapStart, s.inodeBlocksStart, s.dataBlocksStart, s.usedInodeCount,
     s.usedBlockCount]
  }

  function EncodeSuper(s: DSuper): Block
    requires SuperFits(s)
  {
    Ints(SuperInts(s)) + (LeBytes(s.maxFsBlocks, 8) + Zeros(BLOCK_SIZE - 32))
  }

  function U32(b: Block, i: nat): nat
    requires 4 * i + 4 <= BLOCK_SIZE
  {
    LeNat(b[4 * i..4 * i + 4])
  }

  function DecodeSuper(b: Block): DSuper {
    DSuper(U32(b, 0), U32(b, 1), U32(b, 2), U32(b, 3), U32(b, 4), U32(b, 5), LeNat(b[24..32]))
  }

  lemma U32At(s: DSuper, i: nat)
    requires SuperFits(s) && i < 6
    ensures U32(EncodeSuper(s), i) == SuperInts(s)[i]
  {
    var x := SuperInts(s)[i];
    IntsAt(SuperInts(s), LeBytes(s.maxFsBlocks, 8) + Zeros(BLOCK_SIZE - 32), i);
    assert Pow256(4) == 0x1_0000_0000;
    LeRoundTrip(x, 4);
    hide LeNat, LeBytes, Ints;
    assert 0 <= x;
  }

  lemma SuperRoundTrip(s: DSuper)
    requires SuperFits(s)
    ensures DecodeSuper(EncodeSuper(s)) == s
  {
    U32At(s, 0); U32At(s, 1); U32At(s, 2); U32At(s, 3); U32At(s, 4); U32At(s, 5);
    assert Pow256(8) == 0x1_0000_0000_0000_0000;
    LeRoundTrip(s.maxFsBlocks, 8);
    hide LeNat, LeBytes, Ints, U32;
    assert EncodeSuper(s)[24..32] == LeBytes(s.maxFsBlocks, 8);
  }

  // ---- freemaps on the device ----

  /** The words of a bitmap as bytes of the device. */
  function Raw(v: seq<bv8>): (b: Bytes)
    ensures |b| == |v|
  {
    seq(|v|, i requires 0 <= i < |v| => v[i] as int)
  }

  lemma WordOfRaw(w: bv8)
    ensures 0 <= w as int < 256 && (w as int) as bv8 == w
  {}

  /** The block of a freemap that holds bit `index`. */
  function FreemapBlock(index: nat): nat {
    Split(BLOCK_SIZE * BITS_PER_WORD, index, 0);
    index / (BLOCK_SIZE * BITS_PER_WORD)
  }

  /** Bytes in `count` blocks. */
  function Span(count: nat): nat { count * BLOCK_SIZE }

  /** Bits in a freemap of `count` blocks. */
  function FreemapBits(count: nat): nat { BLOCK_SIZE * count * BITS_PER_WORD }

  lemma FreemapSizes(count: nat)
    ensures FreemapBits(count) == 8 * Span(count)
    ensures FreemapBits(INODE_FREEMAP_SIZE) == NR_INODE_BITS
    ensures FreemapBits(BLOCK_FREEMAP_SIZE) == NR_DATA_BLOCKS
  {
    assert Relations(SHAPE);
  }

  /** The bytes of a freemap that its block nr holds. */
  function Chunk(v: Bytes, nr: nat): Block {
    if Span(nr) + BLOCK_SIZE <= |v| then v[Span(nr)..Span(nr) + BLOCK_SIZE] else ZERO_BLOCK
  }

  /** `count` blocks of the device, from `start`, hold the bytes v. */
  ghost predicate Mirrored(disk: Disk, start: nat, count: nat, v: Bytes) {
    && start + count <= |disk|
    && |v| == Span(count)
    && forall nr: nat :: nr < count ==> disk[start + nr] == Chunk(v, nr)
  }

  lemma SpanBelow(nr: nat, count: nat)
    requires nr < count
    ensures Span(nr) + BLOCK_SIZE <= Span(count)
  {
    if nr + 1 < count { Below(BLOCK_SIZE, nr + 1, 0, count, 0); }
  }

  lemma ChunkFrame(v: Bytes, v': Bytes, k: nat, nr: nat)
    requires |v'| == |v| && forall j :: 0 <= j < |v| && j != k ==> v'[j] == v[j]
    requires nr != k / BLOCK_SIZE
    ensures Chunk(v', nr) == Chunk(v, nr)
  {
    if Span(nr) + BLOCK_SIZE <= |v| {
      if Span(nr) <= k < Span(nr) + BLOCK_SIZE { DivMod(BLOCK_SIZE, nr, k - Span(nr)); }
      hide Span;
      assert forall j :: Span(nr) <= j < Span(nr) + BLOCK_SIZE ==> v'[j] == v[j];
    }
  }

  lemma DivDiv(index: nat)
    ensures index / 8 / BLOCK_SIZE == FreemapBlock(index)
  {
    var q := index / 8 / BLOCK_SIZE;
    var r := (index / 8 % BLOCK_SIZE) * 8 + index % 8;
    assert index / 8 == q * BLOCK_SIZE + index / 8 % BLOCK_SIZE;
    assert index == q * (BLOCK_SIZE * 8) + r;
    DivMod(BLOCK_SIZE * 8, q, r);
  }

  lemma FreemapBlockBelow(index: nat, count: nat)
    requires index < 8 * Span(count)
    ensures FreemapBlock(index) < count
  {
    DivDiv(index);
    hide FreemapBlock;
    Split(BLOCK_SIZE, index / 8, count);
  }

  /** Writing the one block that holds a changed bit brings the device up to date. */
  lemma WriteThrough(disk: Disk, start: nat, count: nat, v: Bytes, v': Bytes, index: nat)
    requires Mirrored(disk, start, count, v) && |v'| == |v| && index < 8 * |v|
    requires forall j :: 0 <= j < |v| && j != index / 8 ==> v'[j] == v[j]
    ensures FreemapBlock(index) < count
    ensures Mirrored(disk[start + FreemapBlock(index) := Chunk(v', FreemapBlock(index))], start, count, v')
  {
    var nr := FreemapBlock(index);
    DivDiv(index);
    FreemapBlockBelow(index, count);
    hide FreemapBlock, Chunk, Span;
    var disk' := disk[start + nr := Chunk(v', nr)];
    forall m: nat | m < count ensures disk'[start + m] == Chunk(v', m) {
      if m != nr { ChunkFrame(v, v', index / 8, m); }
    }
  }

  /** Byte k of the region of the device that begins at block `start`. */
  function RegionByte(disk: Disk, start: nat, k: nat): byte {
    Split(BLOCK_SIZE, k, 0);
    if start + k / BLOCK_SIZE < |disk| then disk[start + k / BLOCK_SIZE][k % BLOCK_SIZE] else 0
  }

  lemma MirroredAt(disk: Disk, start: nat, count: nat, v: Bytes, k: nat)
    requires Mirrored(disk, start, count, v) && k < |v|
    ensures RegionByte(disk, start, k) == v[k]
  {
    var nr := k / BLOCK_SIZE;
    Split(BLOCK_SIZE, k, count);
    SpanBelow(nr, count);
    assert Chunk(v, nr)[k % BLOCK_SIZE] == v[k];
  }

  /** read_blocks into the words of a bitmap; `w` is what the device mirrors. */
  method ReadFreemap(disk: Disk, start: nat, count: nat, v: array<bv8>, ghost w: seq<bv8>)
    requires Mirrored(disk, start, count, Raw(w)) && v.Length == |w|
    modifies v
    ensures v[..] == w
  {
    hide Mirrored, RegionByte;
    for k := 0 to v.Length
      invariant v[..k] == w[..k]
    {
      MirroredAt(disk, start, count, Raw(w), k);
      WordOfRaw(w[k]);
      v[k] := RegionByte(disk, start, k) as bv8;
    }
  }

  /** The device holds both freemaps. */
  ghost predicate Freemaps(disk: Disk, i: Bytes, b: Bytes) {
    && |disk| == DEVICE_BLOCKS
    && Mirrored(disk, INODE_FREEMAP_START, INODE_FREEMAP_SIZE, i)
    && Mirrored(disk, BLOCK_FREEMAP_START, BLOCK_FREEMAP_SIZE, b)
  }

  lemma BlockBitWritten(disk: Disk, i: Bytes, b: Bytes, b': Bytes, index: nat, super: Block)
    requires Freemaps(disk, i, b) && |b'| == |b| && index < 8 * |b|
    requires forall j :: 0 <= j < |b| && j != index / 8 ==> b'[j] == b[j]
    ensures FreemapBlock(index) < BLOCK_FREEMAP_SIZE
    ensures Freemaps(disk[BLOCK_FREEMAP_START + FreemapBlock(index) := Chunk(b', FreemapBlock(index))][0 := super], i,
                     b')
  {
    hide FreemapBlock, Chunk, Span;
    WriteThrough(disk, BLOCK_FREEMAP_START, BLOCK_FREEMAP_SIZE, b, b', index);
  }

  lemma InodeBitWritten(disk: Disk, i: Bytes, b: Bytes, i': Bytes, index: nat, super: Block)
    requires Freemaps(disk, i, b) && |i'| == |i| && index < 8 * |i|
    requires forall j :: 0 <= j < |i| && j != index / 8 ==> i'[j] == i[j]
    ensures FreemapBlock(index) < INODE_FREEMAP_SIZE
    ensures Freemaps(disk[INODE_FREEMAP_START + FreemapBlock(index) := Chunk(i', FreemapBlock(index))][0 := super],
                     i', b)
  {
    hide FreemapBlock, Chunk, Span;
    WriteThrough(disk, INODE_FREEMAP_START, INODE_FREEMAP_SIZE, i, i', index);
  }

  /** Writing an inode or data block leaves the freemaps alone. */
  lemma FreemapsFrame(disk: Disk, i: Bytes, b: Bytes, x: nat, block: Block)
    requires Freemaps(disk, i, b) && INODE_BLOCKS_START <= x < |disk|
    ensures Freemaps(disk[x := block], i, b)
  {
    hide Chunk, Span;
  }

  /** One word per eight bits. */
  lemma FreemapWords(nbits: nat, count: nat)
    requires nbits == FreemapBits(count)
    ensures nbits == 8 * ((nbits + 7) / 8)
  {
    FreemapSizes(count);
    hide FreemapBits, Span;
  }

  // ---- struct super_block ----

  ghost predicate BitOf(b: int, marked: set<nat>) {
    b - DATA_BLOCKS_START in marked
  }

  /** The device blocks whose bits are set in the block freemap. */
  ghost function DataBlocks(marked: set<nat>): set<int> {
    set b: int | DATA_BLOCKS_START <= b < DEVICE_BLOCKS && BitOf(b, marked)
  }

  class SuperBlock {
    var disk: Disk
    var sb: DSuper
    const inodeFreemap: Bitmap
    const blockFreemap: Bitmap
    /** the data blocks in use, by device block number, and the inodes in use */
    ghost var used: set<int>
    ghost var live: set<nat>
    /** max_fs_blocks, which no operation changes */
    ghost const limit: int

    /** Layout, counters and the device copies of super block and freemaps agree. */
    ghost predicate Valid()
      reads this, inodeFreemap.v, blockFreemap.v
    {
      && inodeFreemap.v != blockFreemap.v
      && inodeFreemap.Valid() && inodeFreemap.nbits == NR_INODE_BITS
      && blockFreemap.Valid() && blockFreemap.nbits == NR_DATA_BLOCKS
      && Freemaps(disk, Raw(inodeFreemap.v[..]), Raw(blockFreemap.v[..]))
      && sb.inodeFreemapStart == INODE_FREEMAP_START && sb.blockFreemapStart == BLOCK_FREEMAP_START
      && sb.inodeBlocksStart == INODE_BLOCKS_START && sb.dataBlocksStart == DATA_BLOCKS_START
      && used == DataBlocks(blockFreemap.Marked())
      && live == inodeFreemap.Marked()
      && sb.usedInodeCount == |inodeFreemap.Marked()| && sb.usedBlockCount == |blockFreemap.Marked()|
      && SuperFits(sb) && sb.usedBlockCount <= sb.maxFsBlocks == limit
      && |disk| == DEVICE_BLOCKS && disk[0] == EncodeSuper(sb)
    }

    /** How many more blocks can be allocated. */
    ghost function Available(): int
      reads this`sb
    {
      (if sb.maxFsBlocks < NR_DATA_BLOCKS then sb.maxFsBlocks else NR_DATA_BLOCKS) - sb.usedBlockCount
    }

    /** How many blocks can be in use at once. */
    ghost function Capacity(): int { if limit < NR_DATA_BLOCKS then limit else NR_DATA_BLOCKS }

    /** testfs_init_super_block: everything is read back from the device, whose
        freemap regions hold i and b. */
    constructor Mount(image: Disk, ghost i: seq<bv8>, ghost b: seq<bv8>)
      requires |image| == DEVICE_BLOCKS
      requires DecodeSuper(image[0]).inodeFreemapStart == INODE_FREEMAP_START
      requires DecodeSuper(image[0]).blockFreemapStart == BLOCK_FREEMAP_START
      requires Mirrored(image, INODE_FREEMAP_START, INODE_FREEMAP_SIZE, Raw(i))
      requires Mirrored(image, BLOCK_FREEMAP_START, BLOCK_FREEMAP_SIZE, Raw(b))
      ensures fresh(inodeFreemap.v) && fresh(blockFreemap.v) && inodeFreemap.v != blockFreemap.v
      ensures disk == image && sb == DecodeSuper(image[0])
      ensures inodeFreemap.Valid() && inodeFreemap.nbits == NR_INODE_BITS && inodeFreemap.v[..] == i
      ensures blockFreemap.Valid() && blockFreemap.nbits == NR_DATA_BLOCKS && blockFreemap.v[..] == b
      ensures live == inodeFreemap.Marked() && used == DataBlocks(blockFreemap.Marked()) && limit == sb.maxFsBlocks
    {
      hide Chunk, BitAt, DecodeSuper, Span, FreemapBits;
      FreemapSizes(INODE_FREEMAP_SIZE);
      FreemapSizes(BLOCK_FREEMAP_SIZE);
      disk := image;
      sb := DecodeSuper(image[0]);
      var inodeMap := new Bitmap(FreemapBits(INODE_FREEMAP_SIZE));
      var blockMap := new Bitmap(FreemapBits(BLOCK_FREEMAP_SIZE));
      ReadFreemap(image, DecodeSuper(image[0]).inodeFreemapStart, INODE_FREEMAP_SIZE, inodeMap.v, i);
      ReadFreemap(image, DecodeSuper(image[0]).blockFreemapStart, BLOCK_FREEMAP_SIZE, blockMap.v, b);
      inodeFreemap := inodeMap;
      blockFreemap := blockMap;
      limit := DecodeSuper(image[0]).maxFsBlocks;
      live := inodeMap.Marked();
      used := DataBlocks(blockMap.Marked());
    }

    lemma AvailableIsNat()
      requires Valid()
      ensures 0 <= Available()
    {
      MarkedCount(blockFreemap);
      hide SetBits, Freemaps, EncodeSuper;
    }

    /** Blocks in use and blocks left add up to the same number for ever. */
    lemma AvailableIs()
      requires Valid()
      ensures Available() + |used| == Capacity()
    {
      hide SetBits, Freemaps, EncodeSuper;
      var marked := blockFreemap.Marked();
      assert forall i :: i in marked ==> i < NR_DATA_BLOCKS by { MarkedBelow(blockFreemap); }
      BlocksOfBits(marked);
    }

    method WriteSuperBlock()
      requires SuperFits(sb) && 0 < |disk|
      modifies this`disk
      ensures disk == old(disk)[0 := EncodeSuper(sb)]
    {
      disk := disk[0 := EncodeSuper(sb)];
    }

    method WriteBlockFreemap(index: nat)
      requires |disk| == DEVICE_BLOCKS && FreemapBlock(index) < BLOCK_FREEMAP_SIZE
      requires sb.blockFreemapStart == BLOCK_FREEMAP_START
      modifies this`disk
      ensures var nr := FreemapBlock(index);
              disk == old(disk)[BLOCK_FREEMAP_START + nr := Chunk(Raw(blockFreemap.v[..]), nr)]
    {
      hide FreemapBlock, Chunk, Span;
      var nr := FreemapBlock(index);
      disk := disk[sb.blockFreemapStart + nr := Chunk(Raw(blockFreemap.v[..]), nr)];
    }

    /** After one bit of the block freemap has changed: its block, the counter and the
        super block are brought up to date on the device. */
    method SaveBlockBit(index: nat, count: nat, ghost before: seq<bv8>)
      requires && |disk| == DEVICE_BLOCKS && sb.blockFreemapStart == BLOCK_FREEMAP_START
               && SuperFits(sb.(usedBlockCount := count))
      requires blockFreemap.Valid() && blockFreemap.nbits == NR_DATA_BLOCKS && index < NR_DATA_BLOCKS
      requires |before| == blockFreemap.v.Length
      requires forall k :: 0 <= k < |before| && k != index / BITS_PER_WORD ==> blockFreemap.v[k] == before[k]
      requires Freemaps(disk, Raw(inodeFreemap.v[..]), Raw(before))
      modifies this`disk, this`sb
      ensures sb == old(sb).(usedBlockCount := count)
      ensures Freemaps(disk, Raw(inodeFreemap.v[..]), Raw(blockFreemap.v[..]))
      ensures |disk| == DEVICE_BLOCKS && disk[0] == EncodeSuper(sb)
      ensures forall b :: INODE_BLOCKS_START <= b < |disk| ==> disk[b] == old(disk)[b]
    {
      hide FreemapBlock, Chunk, Span, BitAt, EncodeSuper, SetBits, Freemaps, FreemapBits;
      FreemapSizes(BLOCK_FREEMAP_SIZE);
      FreemapWords(blockFreemap.nbits, BLOCK_FREEMAP_SIZE);
      BlockBitWritten(disk, Raw(inodeFreemap.v[..]), Raw(before), Raw(blockFreemap.v[..]), index,
                      EncodeSuper(sb.(usedBlockCount := count)));
      WriteBlockFreemap(index);
      sb := sb.(usedBlockCount := count);
      WriteSuperBlock();
    }

    /** The lowest free data block, or -ENOSPC when the limit or the freemap is
        exhausted. Only the super block and freemap blocks are written. */
    method AllocBlock() returns (ret: int)
      requires Valid()
      modifies this, blockFreemap.v
      ensures Valid() && |disk| == DEVICE_BLOCKS
      ensures live == old(live)
      ensures ret < 0 <==> old(Available()) <= 0
      ensures ret < 0 ==> ret == -ENOSPC && disk == old(disk) && sb == old(sb) && used == old(used)
      ensures ret >= 0 ==>
                && DATA_BLOCKS_START <= ret < DEVICE_BLOCKS && ret !in old(used)
                && (forall b :: DATA_BLOCKS_START <= b < ret ==> b in old(used))
                && used == old(used) + {ret}
                && sb == old(sb).(usedBlockCount := old(sb).usedBlockCount + 1)
                && (forall b :: INODE_BLOCKS_START <= b < |disk| ==> disk[b] == old(disk)[b])
    {
      hide BitAt, EncodeSuper, SetBits, Freemaps, Bitmap.Valid;
      MarkedCount(blockFreemap);
      if sb.usedBlockCount >= sb.maxFsBlocks {
        return -ENOSPC;
      }
      var r, index := blockFreemap.Alloc();
      if r < 0 {
        MarkedCount(blockFreemap);
        return r;
      }
      MarkedCount(blockFreemap);
      DeviceIs32Bit();
      SaveBlockBit(index, sb.usedBlockCount + 1, old(blockFreemap.v[..]));
      used := used + {DATA_BLOCKS_START + index};
      forall b | DATA_BLOCKS_START <= b < DATA_BLOCKS_START + index ensures b in old(used) {
        assert BitOf(b, old(blockFreemap.Marked()));
      }
      return sb.dataBlocksStart + index;
    }

    /** Zeroes block b on the device and returns it to the freemap. As the source
        asserts, b must be a data block in use. */
    method FreeBlock(b: nat)
      requires Valid() && b in used
      modifies this, blockFreemap.v
      ensures Valid() && |disk| == DEVICE_BLOCKS
      ensures used == old(used) - {b} && live == old(live)
      ensures sb == old(sb).(usedBlockCount := old(sb).usedBlockCount - 1)
      ensures forall x :: INODE_BLOCKS_START <= x < |disk| ==> disk[x] == if x == b then ZERO_BLOCK else old(disk)[x]
    {
      hide BitAt, EncodeSuper, Freemaps, SetBits, Bitmap.Valid;
      assert BitOf(b, blockFreemap.Marked());
      FreemapsFrame(disk, Raw(inodeFreemap.v[..]), Raw(blockFreemap.v[..]), b, ZERO_BLOCK);
      disk := disk[b := ZERO_BLOCK];
      var index := b - sb.dataBlocksStart;
      blockFreemap.Unmark(index);
      assert |old(blockFreemap.Marked())| == |blockFreemap.Marked()| + 1;
      SaveBlockBit(index, sb.usedBlockCount - 1, old(blockFreemap.v[..]));
      used := used - {b};
    }

    method WriteInodeFreemap(index: nat)
      requires |disk| == DEVICE_BLOCKS && FreemapBlock(index) < INODE_FREEMAP_SIZE
      requires sb.inodeFreemapStart == INODE_FREEMAP_START
      modifies this`disk
      ensures var nr := FreemapBlock(index);
              disk == old(disk)[INODE_FREEMAP_START + nr := Chunk(Raw(inodeFreemap.v[..]), nr)]
    {
      hide FreemapBlock, Chunk, Span;
      var nr := FreemapBlock(index);
      disk := disk[sb.inodeFreemapStart + nr := Chunk(Raw(inodeFreemap.v[..]), nr)];
    }

    /** The same for a bit of the inode freemap. */
    method SaveInodeBit(index: nat, count: nat, ghost before: seq<bv8>)
      requires && |disk| == DEVICE_BLOCKS && sb.inodeFreemapStart == INODE_FREEMAP_START
               && SuperFits(sb.(usedInodeCount := count))
      requires inodeFreemap.Valid() && inodeFreemap.nbits == NR_INODE_BITS && index < NR_INODE_BITS
      requires |before| == inodeFreemap.v.Length
      requires forall k :: 0 <= k < |before| && k != index / BITS_PER_WORD ==> inodeFreemap.v[k] == before[k]
      requires Freemaps(disk, Raw(before), Raw(blockFreemap.v[..]))
      modifies this`disk, this`sb
      ensures sb == old(sb).(usedInodeCount := count)
      ensures Freemaps(disk, Raw(inodeFreemap.v[..]), Raw(blockFreemap.v[..]))
      ensures |disk| == DEVICE_BLOCKS && disk[0] == EncodeSuper(sb)
      ensures forall b :: INODE_BLOCKS_START <= b < |disk| ==> disk[b] == old(disk)[b]
    {
      hide FreemapBlock, Chunk, Span, BitAt, EncodeSuper, SetBits, Freemaps, FreemapBits;
      FreemapSizes(INODE_FREEMAP_SIZE);
      FreemapWords(inodeFreemap.nbits, INODE_FREEMAP_SIZE);
      InodeBitWritten(disk, Raw(before), Raw(blockFreemap.v[..]), Raw(inodeFreemap.v[..]), index,
                      EncodeSuper(sb.(usedInodeCount := count)));
      WriteInodeFreemap(index);
      sb := sb.(usedInodeCount := count);
      WriteSuperBlock();
    }

    /** The lowest free inode number, or -ENOSPC when the freemap is full. */
    method GetInodeFreemap() returns (ret: int)
      requires Valid()
      modifies this, inodeFreemap.v
      ensures Valid() && |disk| == DEVICE_BLOCKS
      ensures ret < 0 ==> ret == -ENOSPC && disk == old(disk) && sb == old(sb)
      ensures ret < 0 ==> forall i: nat :: i < NR_INODE_BITS ==> i in live
      ensures ret < 0 ==> live == old(live)
      ensures used == old(used) && |disk| == DEVICE_BLOCKS
      ensures ret >= 0 ==>
                && ret < NR_INODE_BITS && ret !in old(live)
                && (forall i: nat :: i < ret ==> i in old(live))
                && live == old(live) + {ret}
                && sb == old(sb).(usedInodeCount := old(sb).usedInodeCount + 1)
                && (forall b :: INODE_BLOCKS_START <= b < |disk| ==> disk[b] == old(disk)[b])
    {
      hide BitAt, EncodeSuper, SetBits, Freemaps, Bitmap.Valid;
      var r, index := inodeFreemap.Alloc();
      if r < 0 {
        return r;
      }
      MarkedCount(inodeFreemap);
      InodeBitsAre32Bit();
      SaveInodeBit(index, sb.usedInodeCount + 1, old(inodeFreemap.v[..]));
      live := live + {index};
      return index;
    }

    method PutInodeFreemap(nr: nat)
      requires Valid() && nr in live
      modifies this, inodeFreemap.v
      ensures Valid() && |disk| == DEVICE_BLOCKS
      ensures live == old(live) - {nr} && used == old(used)
      ensures sb == old(sb).(usedInodeCount := old(sb).usedInodeCount - 1)
      ensures forall b :: INODE_BLOCKS_START <= b < |disk| ==> disk[b] == old(disk)[b]
    {
      MarkedCount(inodeFreemap);
      hide BitAt, EncodeSuper, SetBits, Freemaps, Bitmap.Valid;
      InodeBitNumber(inodeFreemap.v[..], inodeFreemap.nbits, nr);
      inodeFreemap.Unmark(nr);
      assert |old(inodeFreemap.Marked())| == |inodeFreemap.Marked()| + 1;
      SaveInodeBit(nr, sb.usedInodeCount - 1, old(inodeFreemap.v[..]));
      live := live - {nr};
    }

    /** A write to an inode or data block leaves super block and freemaps as they are. */
    method WriteBlock(b: nat, block: Block)
      requires Valid() && INODE_BLOCKS_START <= b < DEVICE_BLOCKS
      modifies this`disk
      ensures Valid() && disk == old(disk)[b := block]
    {
      hide Freemaps, BitAt, EncodeSuper, SetBits;
      FreemapsFrame(disk, Raw(inodeFreemap.v[..]), Raw(blockFreemap.v[..]), b, block);
      disk := disk[b := block];
    }

    /** testfs_close_super_block writes back super block and freemaps; write-through
        has kept the device up to date, so nothing changes. */
    method Close()
      requires Valid()
      modifies this`disk
      ensures disk == old(disk)
    {
      hide Chunk, Span, BitAt, EncodeSuper, SetBits;
      WriteSuperBlock();
      for nr := 0 to INODE_FREEMAP_SIZE
        invariant disk == old(disk)
      {
        disk := disk[sb.inodeFreemapStart + nr := Chunk(Raw(inodeFreemap.v[..]), nr)];
      }
      for nr := 0 to BLOCK_FREEMAP_SIZE
        invariant disk == old(disk)
      {
        disk := disk[sb.blockFreemapStart + nr := Chunk(Raw(blockFreemap.v[..]), nr)];
      }
    }
  }

  lemma MarkedBelow(b: Bitmap)
    requires b.Valid()
    ensures forall i :: i in b.Marked() ==> i < b.nbits
  {}

  lemma {:induction false} BlocksOfBits(marked: set<nat>)
    requires forall i :: i in marked ==> i < NR_DATA_BLOCKS
    ensures |DataBlocks(marked)| == |marked|
    decreases |marked|
  {
    if marked == {} {
      assert DataBlocks({}) == {};
    } else {
      var i :| i in marked;
      BlocksOfBits(marked - {i});
      forall b: int ensures b in DataBlocks(marked) <==> b in DataBlocks(marked - {i}) + {DATA_BLOCKS_START + i} {
        assert BitOf(b, marked) <==> BitOf(b, marked - {i}) || b == DATA_BLOCKS_START + i;
      }
      assert DataBlocks(marked) == DataBlocks(marked - {i}) + {DATA_BLOCKS_START + i};
      assert !BitOf(DATA_BLOCKS_START + i, marked - {i});
    }
  }

  lemma MarkedCount(b: Bitmap)
    requires b.Valid()
    ensures |b.Marked()| <= b.nbits <= BITS_PER_WORD * b.v.Length
    ensures (forall i: nat :: i < b.nbits ==> i in b.Marked()) ==> |b.Marked()| == b.nbits
  {
    hide BitAt, SetBits;
    assert b.Marked() == SetBits(b.v[..], b.nbits);
    MarkedBounded(b.v[..], b.nbits);
    if forall i: nat :: i < b.nbits ==> i in b.Marked() { MarkedFull(b.v[..], b.nbits); }
  }

  /** At most n bits below n are set. */
  lemma {:induction false} MarkedBounded(v: seq<bv8>, n: nat)
    requires n <= BITS_PER_WORD * |v|
    ensures |SetBits(v, n)| <= n
  {
    hide BitAt;
    if n > 0 {
      MarkedBounded(v, n - 1);
      assert SetBits(v, n) == if BitAt(v, n - 1) then SetBits(v, n - 1) + {n - 1} else SetBits(v, n - 1);
    }
  }

  /** If all bits below n are set, there are n of them. */
  lemma {:induction false} MarkedFull(v: seq<bv8>, n: nat)
    requires n <= BITS_PER_WORD * |v| && forall i: nat :: i < n ==> i in SetBits(v, n)
    ensures |SetBits(v, n)| == n
  {
    hide BitAt;
    if n > 0 {
      assert SetBits(v, n) == SetBits(v, n - 1) + {n - 1};
      MarkedFull(v, n - 1);
    }
  }

  lemma InodeBitNumber(v: seq<bv8>, n: nat, i: nat)
    requires n <= BITS_PER_WORD * |v| && i in SetBits(v, n)
    ensures i < n
  {}

  lemma InodeBitsAre32Bit()
    ensures NR_INODE_BITS < 0x8000_0000
  {
    assert Relations(SHAPE);
  }

  // ---- remounting ----

  /** Closing a file system and reading the device again gives the same super
      block, freemaps and counters. */
  method Remount(was: SuperBlock) returns (now: SuperBlock)
    requires was.Valid()
    modifies was`disk
    ensures was.disk == old(was.disk)
    ensures fresh(now) && fresh(now.inodeFreemap.v) && fresh(now.blockFreemap.v)
    ensures now.Valid() && now.disk == was.disk && now.sb == was.sb
    ensures now.inodeFreemap.v[..] == was.inodeFreemap.v[..] && now.live == was.live
    ensures now.blockFreemap.v[..] == was.blockFreemap.v[..] && now.used == was.used
  {
    hide BitAt, EncodeSuper, DecodeSuper, SetBits, Mirrored;
    SuperRoundTrip(was.sb);
    was.Close();
    now := new SuperBlock.Mount(was.disk, was.inodeFreemap.v[..], was.blockFreemap.v[..]);
  }
}
