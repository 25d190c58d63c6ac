/** Sizes and positions of the on-disk structures of testfs.

    The sizes are symbolic: every result holds for each choice that satisfies
    `Relations`, and the witness is the configuration of fs/testfs.h. */
module FsLayout {

  type Positive = n: int | 0 < n witness 1
  type IndexSize = n: int | 8 <= n witness 8

  /** indirect: block numbers held by one index block; direct: block numbers
      held by one inode; perBlock: inodes held by one inode block; then three
      region sizes in blocks; the rest are derived sizes. */
  datatype Shape = Shape(indirect: IndexSize, direct: Positive, perBlock: Positive,
                         inodeFreemap: Positive, blockFreemap: Positive, inodeBlocks: Positive,
                         maxBlock: Positive, inodes: Positive, inodeBits: Positive, dataBlocks: Positive)

  predicate Relations(s: Shape) {
    && s.maxBlock == s.direct + s.indirect + s.indirect * s.indirect
    && s.inodes == s.inodeBlocks * s.perBlock
    && s.inodeBits == 32 * s.indirect * s.inodeFreemap
    && s.dataBlocks == 32 * s.indirect * s.blockFreemap
    // whole inodes fit into an inode block
    && s.perBlock * (4 * s.direct + 24) <= 4 * s.indirect
    // every inode has a bit in the inode freemap
    && s.inodes <= s.inodeBits < 0x8000_0000
    // block numbers and counters are 32-bit
    && 1 + s.inodeFreemap + s.blockFreemap + s.inodeBlocks + s.dataBlocks < 0x8000_0000
    // file sizes are 64-bit
    && s.maxBlock * (4 * s.indirect) < 0x8000_0000_0000_0000
  }

  /** The relations hold; quantified so that a proof meets them only where it
      names `Relations`. */
  predicate Sound(s: Shape) {
    forall x: Shape :: x == s ==> Relations(x)
  }

  type SoundShape = s: Shape | Sound(s)
    witness Shape(2048, 10, 128, 1, 16, 128, 4196362, 16384, 65536, 1048576)

  const SHAPE: SoundShape

  const NR_INDIRECT_BLOCKS: IndexSize := SHAPE.indirect
  const NR_DIRECT_BLOCKS: Positive := SHAPE.direct
  const INODES_PER_BLOCK: Positive := SHAPE.perBlock
  const INODE_FREEMAP_SIZE: Positive := SHAPE.inodeFreemap
  const BLOCK_FREEMAP_SIZE: Positive := SHAPE.blockFreemap
  const NR_INODE_BLOCKS: Positive := SHAPE.inodeBlocks

  const BLOCK_SIZE: Positive := 4 * NR_INDIRECT_BLOCKS
  const DINODE_SIZE: Positive := 4 * NR_DIRECT_BLOCKS + 24
  /** blocks one file can address */
  const NR_MAX_BLOCK: Positive := SHAPE.maxBlock
  /** inode slots in the inode table, bits in the two freemaps */
  const NR_INODES: Positive := SHAPE.inodes
  const NR_INODE_BITS: Positive := SHAPE.inodeBits
  const NR_DATA_BLOCKS: Positive := SHAPE.dataBlocks

  const INODE_FREEMAP_START: Positive := 1
  const BLOCK_FREEMAP_START: Positive := INODE_FREEMAP_START + INODE_FREEMAP_SIZE
  const INODE_BLOCKS_START: Positive := BLOCK_FREEMAP_START + BLOCK_FREEMAP_SIZE
  const DATA_BLOCKS_START: Positive := INODE_BLOCKS_START + NR_INODE_BLOCKS
  const DEVICE_BLOCKS: Positive := DATA_BLOCKS_START + NR_DATA_BLOCKS

  lemma DeviceIs32Bit()
    ensures DEVICE_BLOCKS < 0x8000_0000
  {
    assert Relations(SHAPE);
  }
}
