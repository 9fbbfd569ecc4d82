/**
 * On-disk records of the filesystem and their exact little-endian encoding.
 *
 * Every record is a whole number of 32-bit words; the 16- and 8-bit fields of
 * the records always come in groups that fill one aligned word, so a record is
 * encoded as its word sequence and each word as four little-endian bytes, which
 * is the in-memory layout that the source copies with `memcpy` and
 * `reinterpret_cast`.
 */
module Ext2 {
  import opened Bytes
  import Device

  // ---------------------------------------------------------------------
  // Constants
  // ---------------------------------------------------------------------

  const EXT2_SUPER_MAGIC: nat := 0xEF53
  const EXT2_ERROR_FS: nat := 1
  const EXT2_VALID_FS: nat := 2

  const EXT2_S_IFREG: nat := 0x8000
  const EXT2_S_IFDIR: nat := 0x4000
  const EXT2_S_IFLNK: nat := 0xA000
  const EXT2_S_IRUSR: nat := 0x0100
  const EXT2_S_IWUSR: nat := 0x0080

  const NDIRECT_BLOCK: nat := 12
  const N1INDIRECT_BLOCK: nat := 1
  const N2INDIRECT_BLOCK: nat := 1
  const N3INDIRECT_BLOCK: nat := 1

  /** Number of entries of `i_block`. */
  const N_BLOCK_PTRS: nat := 15

  const EXT2_FT_UNKNOWN: nat := 0
  const EXT2_FT_REG_FILE: nat := 1
  const EXT2_FT_DIR: nat := 2
  const EXT2_FT_SYMLINK: nat := 7

  /** sizeof of the records, in bytes. */
  const SUPERBLOCK_BYTES: nat := 84
  const GROUP_DESC_BYTES: nat := 32
  const INODE_BYTES: nat := 128
  const DENTRY_BYTES: nat := 8

  /** `UPPER4(x)`: x rounded up to a multiple of 4. */
  function Upper4(x: nat): nat
  {
    (x + 3) / 4 * 4
  }

  /** UPPER4(x) is a multiple of 4, at least x, and no multiple of 4 at least x is smaller. */
  lemma Upper4Least(x: nat, m: nat)
    requires m % 4 == 0 && x <= m
    ensures Upper4(x) % 4 == 0 && x <= Upper4(x) < x + 4
    ensures Upper4(x) <= m
  {
  }

  /** The mode test `i_mode_ & bit` for one of the single-bit type flags. */
  predicate HasModeBit(mode: u16, bit: nat)
    requires bit == EXT2_S_IFREG || bit == EXT2_S_IFDIR
  {
    (mode / bit) % 2 == 1
  }

  // ---------------------------------------------------------------------
  // Half-words inside a word
  // ---------------------------------------------------------------------

  function Pack16(lo: u16, hi: u16): u32
  {
    lo + 0x1_0000 * hi
  }

  function Lo16(w: u32): u16 { w % 0x1_0000 }

  function Hi16(w: u32): u16 { w / 0x1_0000 }

  lemma Pack16Split(lo: u16, hi: u16)
    ensures Lo16(Pack16(lo, hi)) == lo && Hi16(Pack16(lo, hi)) == hi
  {
  }

  lemma Pack16Join(w: u32)
    ensures Pack16(Lo16(w), Hi16(w)) == w
  {
  }

  // ---------------------------------------------------------------------
  // Superblock
  // ---------------------------------------------------------------------

  datatype SuperBlock = SuperBlock(
    inodesCount: u32, blocksCount: u32, rBlocksCount: u32, freeBlocksCount: u32,
    freeInodesCount: u32, firstDataBlock: u32, logBlockSize: u32, logFragSize: u32,
    blocksPerGroup: u32, fragsPerGroup: u32, inodesPerGroup: u32, mtime: u32, wtime: u32,
    mntCount: u16, maxMntCount: u16, magic: u16, state: u16, errors: u16, minorRevLevel: u16,
    lastcheck: u32, checkinterval: u32, creatorOs: u32, revLevel: u32,
    defResuid: u16, defResgid: u16)

  function SuperWords(sb: SuperBlock): (w: seq<u32>)
    ensures |w| == SUPERBLOCK_BYTES / 4
  {
    [sb.inodesCount, sb.blocksCount, sb.rBlocksCount, sb.freeBlocksCount, sb.freeInodesCount,
     sb.firstDataBlock, sb.logBlockSize, sb.logFragSize, sb.blocksPerGroup, sb.fragsPerGroup,
     sb.inodesPerGroup, sb.mtime, sb.wtime, Pack16(sb.mntCount, sb.maxMntCount),
     Pack16(sb.magic, sb.state), Pack16(sb.errors, sb.minorRevLevel), sb.lastcheck,
     sb.checkinterval, sb.creatorOs, sb.revLevel, Pack16(sb.defResuid, sb.defResgid)]
  }

  function SuperOfWords(w: seq<u32>): SuperBlock
    requires |w| == SUPERBLOCK_BYTES / 4
  {
    SuperBlock(w[0], w[1], w[2], w[3], w[4], w[5], w[6], w[7], w[8], w[9], w[10], w[11], w[12],
      Lo16(w[13]), Hi16(w[13]), Lo16(w[14]), Hi16(w[14]), Lo16(w[15]), Hi16(w[15]),
      w[16], w[17], w[18], w[19], Lo16(w[20]), Hi16(w[20]))
  }

  function EncodeSuper(sb: SuperBlock): (b: seq<byte>)
    ensures |b| == SUPERBLOCK_BYTES
  {
    EncodeWords(SuperWords(sb))
  }

  /** The superblock held in the first SUPERBLOCK_BYTES bytes of s. */
  function DecodeSuper(s: seq<byte>): SuperBlock
    requires |s| >= SUPERBLOCK_BYTES
  {
    SuperOfWords(DecodeWords(s, SUPERBLOCK_BYTES / 4))
  }

  /** A superblock written at the front of a buffer is read back unchanged, whatever follows it. */
  lemma SuperRoundTrip(sb: SuperBlock, rest: seq<byte>)
    ensures DecodeSuper(EncodeSuper(sb) + rest) == sb
  {
    DecodeEncodeWords(SuperWords(sb), rest);
    Pack16Split(sb.mntCount, sb.maxMntCount);
    Pack16Split(sb.magic, sb.state);
    Pack16Split(sb.errors, sb.minorRevLevel);
    Pack16Split(sb.defResuid, sb.defResgid);
  }

  // ---------------------------------------------------------------------
  // Block group descriptor
  // ---------------------------------------------------------------------

  type Words3 = s: seq<u32> | |s| == 3 witness [0, 0, 0]

  datatype GroupDesc = GroupDesc(
    blockBitmap: u32, inodeBitmap: u32, inodeTable: u32,
    freeBlocksCount: u16, freeInodesCount: u16, usedDirsCount: u16, pad: u16,
    reserved: Words3)

  function DescWords(d: GroupDesc): (w: seq<u32>)
    ensures |w| == GROUP_DESC_BYTES / 4
  {
    [d.blockBitmap, d.inodeBitmap, d.inodeTable, Pack16(d.freeBlocksCount, d.freeInodesCount),
     Pack16(d.usedDirsCount, d.pad)] + d.reserved
  }

  function DescOfWords(w: seq<u32>): GroupDesc
    requires |w| == GROUP_DESC_BYTES / 4
  {
    GroupDesc(w[0], w[1], w[2], Lo16(w[3]), Hi16(w[3]), Lo16(w[4]), Hi16(w[4]), w[5..8])
  }

  function EncodeDesc(d: GroupDesc): (b: seq<byte>)
    ensures |b| == GROUP_DESC_BYTES
  {
    EncodeWords(DescWords(d))
  }

  /** Descriptor i of a descriptor table block. */
  function DescAt(s: seq<byte>, i: nat): GroupDesc
    requires GROUP_DESC_BYTES * (i + 1) <= |s|
  {
    DescOfWords(DecodeWords(s[GROUP_DESC_BYTES * i..], GROUP_DESC_BYTES / 4))
  }

  lemma DescRoundTrip(d: GroupDesc, rest: seq<byte>)
    ensures DescOfWords(DecodeWords(EncodeDesc(d) + rest, GROUP_DESC_BYTES / 4)) == d
  {
    DecodeEncodeWords(DescWords(d), rest);
    Pack16Split(d.freeBlocksCount, d.freeInodesCount);
    Pack16Split(d.usedDirsCount, d.pad);
    assert DescWords(d)[5..8] == d.reserved;
  }

  // ---------------------------------------------------------------------
  // Inode
  // ---------------------------------------------------------------------

  /** `i_block_[15]`: 12 direct pointers, then single, double and triple indirect. */
  type BlockPtrs = s: seq<u32> | |s| == 15 witness [0, 0, 0, 0, 0, 0, 0, 0, 0, 0, 0, 0, 0, 0, 0]

  datatype Inode = Inode(
    mode: u16, uid: u16, size: u32, atime: u32, ctime: u32, mtime: u32, dtime: u32,
    gid: u16, linksCount: u16, blocks: u32, flags: u32, osd1: u32,
    block: BlockPtrs,
    generation: u32, fileAcl: u32, dirAcl: u32, faddr: u32, osd2: Words3)

  /** The all-zero inode, `memset(&in, 0, sizeof(inode))`. */
  const ZERO_INODE: Inode :=
    Inode(0, 0, 0, 0, 0, 0, 0, 0, 0, 0, 0, 0, [0, 0, 0, 0, 0, 0, 0, 0, 0, 0, 0, 0, 0, 0, 0],
      0, 0, 0, 0, [0, 0, 0])

  /** Index of the single-, double- and triple-indirect pointer in `i_block`. */
  const SINGLE_SLOT: nat := NDIRECT_BLOCK
  const DOUBLE_SLOT: nat := NDIRECT_BLOCK + N1INDIRECT_BLOCK
  const TRIPLE_SLOT: nat := NDIRECT_BLOCK + N1INDIRECT_BLOCK + N2INDIRECT_BLOCK

  function InodeWords(i: Inode): (w: seq<u32>)
    ensures |w| == INODE_BYTES / 4
  {
    [Pack16(i.mode, i.uid), i.size, i.atime, i.ctime, i.mtime, i.dtime,
     Pack16(i.gid, i.linksCount), i.blocks, i.flags, i.osd1]
    + i.block
    + [i.generation, i.fileAcl, i.dirAcl, i.faddr]
    + i.osd2
  }

  function InodeOfWords(w: seq<u32>): Inode
    requires |w| == INODE_BYTES / 4
  {
    Inode(Lo16(w[0]), Hi16(w[0]), w[1], w[2], w[3], w[4], w[5], Lo16(w[6]), Hi16(w[6]),
      w[7], w[8], w[9], w[10..25], w[25], w[26], w[27], w[28], w[29..32])
  }

  function EncodeInode(i: Inode): (b: seq<byte>)
    ensures |b| == INODE_BYTES
  {
    EncodeWords(InodeWords(i))
  }

  /** The inode held in the first INODE_BYTES bytes of s. */
  function DecodeInode(s: seq<byte>): Inode
    requires |s| >= INODE_BYTES
  {
    InodeOfWords(DecodeWords(s, INODE_BYTES / 4))
  }

  /** An inode record written into a buffer is read back unchanged. */
  lemma InodeRoundTrip(i: Inode, rest: seq<byte>)
    ensures DecodeInode(EncodeInode(i) + rest) == i
  {
    var w := InodeWords(i);
    DecodeEncodeWords(w, rest);
    Pack16Split(i.mode, i.uid);
    Pack16Split(i.gid, i.linksCount);
    assert w[10..25] == i.block;
    assert w[29..32] == i.osd2;
  }

  /** Every 128-byte string is the encoding of the inode it decodes to. */
  lemma InodeBytesRoundTrip(s: seq<byte>)
    requires |s| == INODE_BYTES
    ensures EncodeInode(DecodeInode(s)) == s
  {
    var w := DecodeWords(s, INODE_BYTES / 4);
    Pack16Join(w[0]);
    Pack16Join(w[6]);
    assert InodeWords(InodeOfWords(w)) == w;
    EncodeDecodeWords(s, INODE_BYTES / 4);
  }

  // ---------------------------------------------------------------------
  // Directory entry header
  // ---------------------------------------------------------------------

  /** `{u32 inode, u16 rec_len, u8 name_len, u8 file_type}`; the name follows the header. */
  datatype DentryHeader = DentryHeader(inode: u32, recLen: u16, nameLen: byte, fileType: byte)

  function EncodeDentry(d: DentryHeader): (b: seq<byte>)
    ensures |b| == DENTRY_BYTES
  {
    EncodeWords([d.inode, Pack16(d.recLen, d.nameLen + 0x100 * d.fileType)])
  }

  /** The header held in the first DENTRY_BYTES bytes of s. */
  function DecodeDentry(s: seq<byte>): DentryHeader
    requires |s| >= DENTRY_BYTES
  {
    var w := DecodeWords(s, 2);
    DentryHeader(w[0], Lo16(w[1]), Hi16(w[1]) % 0x100, Hi16(w[1]) / 0x100)
  }

  /** A dentry header written into a buffer is read back unchanged. */
  lemma DentryRoundTrip(d: DentryHeader, rest: seq<byte>)
    ensures DecodeDentry(EncodeDentry(d) + rest) == d
  {
    var hi := d.nameLen + 0x100 * d.fileType;
    DecodeEncodeWords([d.inode, Pack16(d.recLen, hi)], rest);
    Pack16Split(d.recLen, hi);
    ByteSplit(d.nameLen, d.fileType);
  }
}
