/**
 * The block layer: filesystem blocks of 1024 << log bytes laid over the
 * 1024-byte device blocks, the per-group block bitmaps, first-fit block
 * allocation, the cached superblock and the cached group descriptor table.
 *
 * The pure functions describe the disk after each operation; the classes
 * `SuperBlockManager` and `BlockManager` perform the operations step by step
 * and are proved to produce exactly those disks.
 */
module Blocks {
  import opened Bytes
  import opened Ext2
  import opened Device
  import opened Scan
  import opened Arith

  // ---------------------------------------------------------------------
  // Filesystem blocks over device blocks
  // ---------------------------------------------------------------------

  /** Bytes of one filesystem block, `1024 << log`. */
  function BlockBytes(log: nat): (n: nat)
    ensures n >= BLOCK_SIZE
  {
    BLOCK_SIZE * Pow2(log)
  }

  /** Filesystem block bid occupies device blocks [bid << log, (bid + 1) << log), all on the device. */
  predicate OnDevice(log: nat, bid: int)
  {
    0 <= bid && Mul(bid + 1, Pow2(log)) <= BLOCK_NUM
  }

  function Join(pieces: seq<DeviceBlock>): (r: seq<byte>)
    ensures |r| == BLOCK_SIZE * |pieces|
  {
    if pieces == [] then [] else pieces[0] + Join(pieces[1..])
  }

  function Chop(data: seq<byte>, n: nat): (r: seq<DeviceBlock>)
    requires |data| == BLOCK_SIZE * n
    ensures |r| == n
  {
    if n == 0 then [] else [data[..BLOCK_SIZE]] + Chop(data[BLOCK_SIZE..], n - 1)
  }

  lemma {:induction false} JoinAppend(a: seq<DeviceBlock>, b: seq<DeviceBlock>)
    ensures Join(a + b) == Join(a) + Join(b)
  {
    if a != [] {
      JoinAppend(a[1..], b);
      assert (a + b)[0] == a[0];
      assert (a + b)[1..] == a[1..] + b;
      calc {
        Join(a + b);
        a[0] + Join(a[1..] + b);
        a[0] + (Join(a[1..]) + Join(b));
        (a[0] + Join(a[1..])) + Join(b);
      }
    } else {
      assert a + b == b;
    }
  }

  /** Cutting a block into device pieces and gluing them back gives the block. */
  lemma {:induction false} JoinChop(data: seq<byte>, n: nat)
    requires |data| == BLOCK_SIZE * n
    ensures Join(Chop(data, n)) == data
  {
    if n > 0 {
      JoinChop(data[BLOCK_SIZE..], n - 1);
    }
  }

  lemma {:induction false} ChopJoin(pieces: seq<DeviceBlock>)
    ensures Chop(Join(pieces), |pieces|) == pieces
  {
    if pieces != [] {
      ChopJoin(pieces[1..]);
      assert Join(pieces)[..BLOCK_SIZE] == pieces[0];
      assert Join(pieces)[BLOCK_SIZE..] == Join(pieces[1..]);
    }
  }

  /** Contents of filesystem block bid: its device blocks, concatenated (`readBlock`). */
  function FsRead(dev: seq<DeviceBlock>, log: nat, bid: nat): (b: seq<byte>)
    requires |dev| == BLOCK_NUM && OnDevice(log, bid)
    ensures |b| == BlockBytes(log)
  {
    Join(dev[Mul(bid, Pow2(log))..Mul(bid + 1, Pow2(log))])
  }

  /** The device after storing data as filesystem block bid (`writeBlock`). */
  function FsWrite(dev: seq<DeviceBlock>, log: nat, bid: nat, data: seq<byte>): (d: seq<DeviceBlock>)
    requires |dev| == BLOCK_NUM && OnDevice(log, bid) && |data| == BlockBytes(log)
    ensures |d| == BLOCK_NUM
  {
    dev[..Mul(bid, Pow2(log))] + Chop(data, Pow2(log)) + dev[Mul(bid + 1, Pow2(log))..]
  }

  /** Device blocks outside the written filesystem block keep their contents. */
  lemma FsWriteDevice(dev: seq<DeviceBlock>, log: nat, bid: nat, data: seq<byte>, n: nat)
    requires |dev| == BLOCK_NUM && OnDevice(log, bid) && |data| == BlockBytes(log)
    requires n < BLOCK_NUM && !(Mul(bid, Pow2(log)) <= n < Mul(bid + 1, Pow2(log)))
    ensures FsWrite(dev, log, bid, data)[n] == dev[n]
  {
  }

  /** A written block reads back as written, and every other block reads as before. */
  lemma FsReadWrite(dev: seq<DeviceBlock>, log: nat, bid: nat, data: seq<byte>, other: nat)
    requires |dev| == BLOCK_NUM && OnDevice(log, bid) && |data| == BlockBytes(log)
    requires OnDevice(log, other)
    ensures FsRead(FsWrite(dev, log, bid, data), log, other)
         == if other == bid then data else FsRead(dev, log, other)
  {
    var p := Pow2(log);
    var d := FsWrite(dev, log, bid, data);
    if other == bid {
      assert d[Mul(bid, p)..Mul(bid + 1, p)] == Chop(data, p);
      JoinChop(data, p);
    } else if other < bid {
      MulMono(other + 1, bid, p);
      MulSucc(other, p);
      assert d[Mul(other, p)..Mul(other + 1, p)] == dev[Mul(other, p)..Mul(other + 1, p)];
    } else {
      MulMono(bid + 1, other, p);
      MulSucc(other, p);
      MulSucc(bid, p);
      assert d[Mul(other, p)..Mul(other + 1, p)] == dev[Mul(other, p)..Mul(other + 1, p)];
    }
  }

  /** A second write of the same block replaces the first. */
  lemma FsWriteTwice(dev: seq<DeviceBlock>, log: nat, bid: nat, d1: seq<byte>, d2: seq<byte>)
    requires |dev| == BLOCK_NUM && OnDevice(log, bid) && |d1| == BlockBytes(log) && |d2| == BlockBytes(log)
    ensures FsWrite(FsWrite(dev, log, bid, d1), log, bid, d2) == FsWrite(dev, log, bid, d2)
  {
    var p := Pow2(log);
    var e := FsWrite(dev, log, bid, d1);
    assert e[..Mul(bid, p)] == dev[..Mul(bid, p)];
    assert e[Mul(bid + 1, p)..] == dev[Mul(bid + 1, p)..];
  }

  /** Writing back what was read leaves the device as it was. */
  lemma FsWriteSame(dev: seq<DeviceBlock>, log: nat, bid: nat)
    requires |dev| == BLOCK_NUM && OnDevice(log, bid)
    ensures FsWrite(dev, log, bid, FsRead(dev, log, bid)) == dev
  {
    var p := Pow2(log);
    var lo, hi := Mul(bid, p), Mul(bid + 1, p);
    MulSucc(bid, p);
    ChopJoin(dev[lo..hi]);
    assert dev[..lo] + dev[lo..hi] == dev[..hi];
    assert dev == dev[..hi] + dev[hi..];
  }

  // ---------------------------------------------------------------------
  // The filesystem image the layers above the block I/O see
  // ---------------------------------------------------------------------

  /** Filesystem blocks as `readBlock` returns them: entry b is filesystem block b. */
  type Image = seq<seq<byte>>

  /** Whole filesystem blocks on the device, `BLOCK_NUM >> log`. */
  function FsBlocks(log: nat): nat
  {
    Div(BLOCK_NUM, Pow2(log))
  }

  /** A filesystem block is on the device exactly when it is one of the whole blocks. */
  lemma OnDeviceBelow(log: nat, b: nat)
    ensures OnDevice(log, b) <==> b < FsBlocks(log)
  {
    var p := Pow2(log);
    var q := FsBlocks(log);
    DivMod(BLOCK_NUM, p);
    if b < q {
      MulMono(b + 1, q, p);
    } else {
      MulMono(q + 1, b + 1, p);
      MulSucc(q, p);
    }
  }

  /** Every filesystem block of the image holds bs bytes. */
  predicate Sized(fs: Image, bs: nat)
  {
    forall b | 0 <= b < |fs| :: |fs[b]| == bs
  }

  /** An image of the device: one entry of `1024 << log` bytes per filesystem block. */
  predicate Shaped(fs: Image, log: nat)
  {
    |fs| == FsBlocks(log) && Sized(fs, BlockBytes(log))
  }

  /** The image of a device: filesystem block b reads as `readBlock(b)`. */
  function View(dev: seq<DeviceBlock>, log: nat): (fs: Image)
    requires |dev| == BLOCK_NUM
    ensures Shaped(fs, log)
  {
    seq(FsBlocks(log), b requires 0 <= b < FsBlocks(log) => OnDeviceBelow(log, b); FsRead(dev, log, b))
  }

  lemma ViewAt(dev: seq<DeviceBlock>, log: nat, b: nat)
    requires |dev| == BLOCK_NUM && b < FsBlocks(log)
    ensures OnDevice(log, b) && View(dev, log)[b] == FsRead(dev, log, b)
  {
    OnDeviceBelow(log, b);
  }

  /** `writeBlock(data, bid)` replaces entry bid of the image and no other. */
  lemma ViewWrite(dev: seq<DeviceBlock>, log: nat, bid: nat, data: seq<byte>)
    requires |dev| == BLOCK_NUM && bid < FsBlocks(log) && |data| == BlockBytes(log)
    ensures OnDevice(log, bid)
    ensures View(FsWrite(dev, log, bid, data), log) == View(dev, log)[bid := data]
  {
    OnDeviceBelow(log, bid);
    var after := View(FsWrite(dev, log, bid, data), log);
    var expected := View(dev, log)[bid := data];
    forall b | 0 <= b < |after|
      ensures after[b] == expected[b]
    {
      ViewAt(FsWrite(dev, log, bid, data), log, b);
      ViewAt(dev, log, b);
      FsReadWrite(dev, log, bid, data, b);
    }
  }

  // ---------------------------------------------------------------------
  // Geometry
  // ---------------------------------------------------------------------

  function Log(sb: SuperBlock): nat { sb.logBlockSize }

  /** Pointers per indirect block, `(1024 << log) / sizeof(uint32_t)`. */
  function Entries(sb: SuperBlock): (e: nat)
    ensures e >= 256
  {
    BlockBytes(Log(sb)) / 4
  }

  /** Inode records per inode-table block, `(1024 << log) / sizeof(inode)`. */
  function InodesPerBlock(sb: SuperBlock): (n: nat)
    ensures n >= 8
  {
    BlockBytes(Log(sb)) / INODE_BYTES
  }

  /** A block holds a whole number of inode records, with no bytes left over. */
  lemma InodesFillBlock(sb: SuperBlock)
    ensures InodesPerBlock(sb) * INODE_BYTES == BlockBytes(Log(sb))
  {
    var k := 8 * Pow2(Log(sb));
    assert BlockBytes(Log(sb)) == k * INODE_BYTES;
    assert (k * INODE_BYTES) / INODE_BYTES == k;
  }

  function InodeTableBlocks(sb: SuperBlock): nat
  {
    Div(sb.inodesPerGroup + InodesPerBlock(sb) - 1, InodesPerBlock(sb))
  }

  /** Number of groups as `refresh` computes it, in unsigned 32-bit arithmetic. */
  function GroupCount(sb: SuperBlock): nat
    requires sb.blocksPerGroup > 0
  {
    Div((sb.blocksCount - sb.firstDataBlock + sb.blocksPerGroup - 1) % U32_MOD, sb.blocksPerGroup)
  }

  /** What `refresh` needs of superblock sb over image fs: groups, and a descriptor table that fits its block. */
  predicate Loadable(fs: Image, sb: SuperBlock)
  {
    && sb.blocksPerGroup > 0
    && Shaped(fs, Log(sb))
    && 1 + sb.firstDataBlock < FsBlocks(Log(sb))
    && GROUP_DESC_BYTES * GroupCount(sb) <= BlockBytes(Log(sb))
  }

  /** The descriptor table fs holds: one record per group, in block 1 + s_first_data_block. */
  function StoredDescs(fs: Image, sb: SuperBlock): (r: seq<GroupDesc>)
    requires Loadable(fs, sb)
    ensures |r| == GroupCount(sb)
    ensures forall g | 0 <= g < |r| :: r[g] == DescAt(fs[1 + sb.firstDataBlock], g)
  {
    seq(GroupCount(sb), g requires 0 <= g < GroupCount(sb) => DescAt(fs[1 + sb.firstDataBlock], g))
  }

  /**
   * Superblock and descriptor table describe a filesystem that fits the device:
   * every block below s_blocks_count is on the device, each group's bitmaps fit
   * in one block, the descriptor cache holds one entry per group, and each
   * group's bitmaps and inode table lie inside the filesystem.
   */
  predicate Geometry(sb: SuperBlock, bgd: seq<GroupDesc>)
  {
    && sb.blocksPerGroup > 0
    && sb.inodesPerGroup > 0
    && sb.firstDataBlock < sb.blocksCount
    && sb.blocksCount <= FsBlocks(Log(sb))
    && sb.blocksPerGroup <= 8 * BlockBytes(Log(sb))
    && sb.inodesPerGroup <= 8 * BlockBytes(Log(sb))
    && |bgd| == GroupCount(sb)
    && forall g | 0 <= g < |bgd| ::
         && bgd[g].blockBitmap < sb.blocksCount
         && bgd[g].inodeBitmap < sb.blocksCount
         && bgd[g].inodeTable + InodeTableBlocks(sb) <= sb.blocksCount
  }

  /** Groups keep their block bitmaps in different blocks. */
  predicate DistinctBitmaps(bgd: seq<GroupDesc>)
  {
    forall g, h {:trigger bgd[g].blockBitmap, bgd[h].blockBitmap}
      | 0 <= g < |bgd| && 0 <= h < |bgd| && g != h :: bgd[g].blockBitmap != bgd[h].blockBitmap
  }

  lemma BelowCountOnDevice(sb: SuperBlock, bgd: seq<GroupDesc>, b: nat)
    requires Geometry(sb, bgd) && b < sb.blocksCount
    ensures OnDevice(Log(sb), b)
  {
    OnDeviceBelow(Log(sb), b);
  }

  lemma LogBound(sb: SuperBlock, bgd: seq<GroupDesc>)
    requires Geometry(sb, bgd)
    ensures Pow2(Log(sb)) <= BLOCK_NUM && Log(sb) <= 10 && BlockBytes(Log(sb)) % 4 == 0
    ensures BlockBytes(Log(sb)) >= BLOCK_SIZE && InodesPerBlock(sb) >= 8
    ensures BlockBytes(Log(sb)) <= BLOCK_SIZE * BLOCK_NUM
    ensures sb.blocksCount <= BLOCK_NUM
    ensures sb.blocksPerGroup <= 8 * BLOCK_SIZE * BLOCK_NUM && sb.inodesPerGroup <= 8 * BLOCK_SIZE * BLOCK_NUM
  {
    var p := Pow2(Log(sb));
    var q := FsBlocks(Log(sb));
    DivMod(BLOCK_NUM, p);
    MulMono(1, q, p);
    assert Mul(1, p) == p;
    if Log(sb) > 10 {
      Pow2Mono(11, Log(sb));
    }
    BlockBytesFacts(p);
  }

  lemma BlockBytesFacts(p: nat)
    requires 1 <= p <= BLOCK_NUM
    ensures BLOCK_SIZE * p % 4 == 0 && BLOCK_SIZE * p / INODE_BYTES == 8 * p
    ensures BLOCK_SIZE <= BLOCK_SIZE * p <= BLOCK_SIZE * BLOCK_NUM
  {
    assert BLOCK_SIZE * p == 4 * (256 * p) == INODE_BYTES * (8 * p);
  }

  lemma {:induction false} Pow2Mono(a: nat, b: nat)
    requires a <= b
    ensures Pow2(a) <= Pow2(b)
  {
    if a < b {
      Pow2Mono(a, b - 1);
    }
  }

  /** Group g starts inside the filesystem: fdb + g * bpg < s_blocks_count. */
  lemma GroupStart(sb: SuperBlock, bgd: seq<GroupDesc>, g: nat)
    requires Geometry(sb, bgd) && g < |bgd|
    ensures sb.firstDataBlock + Mul(g, sb.blocksPerGroup) < sb.blocksCount
  {
    LogBound(sb, bgd);
    CeilDivBound(sb.blocksCount - sb.firstDataBlock, sb.blocksPerGroup, g);
  }

  /** g below ceil(n / d), computed in uint32 arithmetic, means group g starts before n. */
  lemma CeilDivBound(n: nat, d: nat, g: nat)
    requires 0 < n <= BLOCK_NUM && 0 < d <= 8 * BLOCK_SIZE * BLOCK_NUM
    requires g < Div((n + d - 1) % U32_MOD, d)
    ensures Mul(g, d) < n
  {
    assert (n + d - 1) % U32_MOD == n + d - 1;
    var q := Div(n + d - 1, d);
    DivMod(n + d - 1, d);
    MulMono(g + 1, q, d);
  }

  /** A quotient of a wrapped-around (huge) difference exceeds every group index. */
  lemma WrappedQuotient(s: nat, d: nat, k: nat)
    requires 0 < d <= 8 * BLOCK_SIZE * BLOCK_NUM && Mul(k, d) < BLOCK_NUM
    requires s >= U32_MOD - BLOCK_NUM
    ensures Div(s, d) > k
  {
    var q := Div(s, d);
    DivMod(s, d);
    if q <= k {
      MulMono(q + 1, k + 1, d);
    }
  }

  // ---------------------------------------------------------------------
  // Block bitmaps
  // ---------------------------------------------------------------------

  /** `index - s_first_data_block_` in uint32 arithmetic. */
  function Sub32(a: u32, b: u32): u32
  {
    (a - b) % U32_MOD
  }

  function BlockGroup(sb: SuperBlock, b: u32): nat
    requires sb.blocksPerGroup > 0
  {
    Div(Sub32(b, sb.firstDataBlock), sb.blocksPerGroup)
  }

  function BlockOffset(sb: SuperBlock, b: u32): nat
    requires sb.blocksPerGroup > 0
  {
    Mod(Sub32(b, sb.firstDataBlock), sb.blocksPerGroup)
  }

  /** The two assertions `tagBlock` and `state` make about their argument. */
  predicate Taggable(sb: SuperBlock, bgd: seq<GroupDesc>, b: u32)
    requires sb.blocksPerGroup > 0
  {
    b < sb.blocksCount && BlockGroup(sb, b) < |bgd|
  }

  /** Both assertions together exclude the blocks before the first data block. */
  lemma TaggableAboveFirst(sb: SuperBlock, bgd: seq<GroupDesc>, b: u32)
    requires Geometry(sb, bgd) && Taggable(sb, bgd, b)
    ensures sb.firstDataBlock <= b
    ensures b == sb.firstDataBlock + Mul(BlockGroup(sb, b), sb.blocksPerGroup) + BlockOffset(sb, b)
  {
    if b < sb.firstDataBlock {
      BelowFirst(sb, bgd, b);
      assert false;
    }
    DivMod(Sub32(b, sb.firstDataBlock), sb.blocksPerGroup);
  }

  /** A block before the first data block wraps around to a group past the table. */
  lemma BelowFirst(sb: SuperBlock, bgd: seq<GroupDesc>, b: u32)
    requires Geometry(sb, bgd) && b < sb.firstDataBlock
    ensures BlockGroup(sb, b) >= |bgd|
  {
    if |bgd| > 0 {
      LogBound(sb, bgd);
      GroupStart(sb, bgd, |bgd| - 1);
      WrappedGroup(b, sb.firstDataBlock, sb.blocksPerGroup, |bgd| - 1);
    }
  }

  /** b - f wraps around 32 bits to a quotient past k when b < f and k groups fit on the device. */
  lemma WrappedGroup(b: u32, f: u32, d: nat, k: nat)
    requires b < f < BLOCK_NUM && 0 < d <= 8 * BLOCK_SIZE * BLOCK_NUM && Mul(k, d) < BLOCK_NUM
    ensures Div(Sub32(b, f), d) > k
  {
    assert Sub32(b, f) == b - f + U32_MOD;
    WrappedQuotient(Sub32(b, f), d, k);
  }

  function BitmapBlock(sb: SuperBlock, bgd: seq<GroupDesc>, b: u32): nat
    requires sb.blocksPerGroup > 0 && Taggable(sb, bgd, b)
  {
    bgd[BlockGroup(sb, b)].blockBitmap
  }

  /** `state(b)`: the bit of block b in its group's block bitmap. */
  predicate BlockState(fs: Image, sb: SuperBlock, bgd: seq<GroupDesc>, b: u32)
    requires Geometry(sb, bgd) && Shaped(fs, Log(sb)) && Taggable(sb, bgd, b)
  {
    BitAt(fs[BitmapBlock(sb, bgd, b)], BlockOffset(sb, b))
  }

  /** The image after `tagBlock(b, v)`: one bit of one bitmap block rewritten. */
  function Tag(fs: Image, sb: SuperBlock, bgd: seq<GroupDesc>, b: u32, v: bool): (d: Image)
    requires Geometry(sb, bgd) && Shaped(fs, Log(sb)) && Taggable(sb, bgd, b)
    ensures Shaped(d, Log(sb))
  {
    var bm := BitmapBlock(sb, bgd, b);
    fs[bm := SetBitAt(fs[bm], BlockOffset(sb, b), v)]
  }

  /**
   * After `tagBlock(b, v)`, `state(b) == v` and the state of every other block is
   * what it was, whatever b's previous state; no block but b's bitmap block changes.
   */
  lemma TagThenState(fs: Image, sb: SuperBlock, bgd: seq<GroupDesc>, b: u32, v: bool, c: u32)
    requires Geometry(sb, bgd) && Shaped(fs, Log(sb)) && DistinctBitmaps(bgd)
    requires Taggable(sb, bgd, b) && Taggable(sb, bgd, c)
    ensures BlockState(Tag(fs, sb, bgd, b, v), sb, bgd, c) == if c == b then v else BlockState(fs, sb, bgd, c)
    ensures forall x | 0 <= x < |fs| && x != BitmapBlock(sb, bgd, b) :: Tag(fs, sb, bgd, b, v)[x] == fs[x]
  {
    TaggableAboveFirst(sb, bgd, b);
    TaggableAboveFirst(sb, bgd, c);
    if c != b && BlockGroup(sb, b) == BlockGroup(sb, c) {
      assert BlockOffset(sb, b) != BlockOffset(sb, c);
    }
  }

  // ---------------------------------------------------------------------
  // First-fit block allocation
  // ---------------------------------------------------------------------

  /** Blocks of group g that the scan may hand out, `min(remainBlock, bpg)` in uint32 arithmetic. */
  function ScanLimit(sb: SuperBlock, g: nat): nat
  {
    Min((sb.blocksCount - sb.firstDataBlock - Mul(g, sb.blocksPerGroup)) % U32_MOD, sb.blocksPerGroup)
  }

  /** What `getIdleBlock` scans: each group's block bitmap, and how many of its bits it tests. */
  function BlockScanMaps(fs: Image, sb: SuperBlock, bgd: seq<GroupDesc>): (m: seq<seq<byte>>)
    requires Geometry(sb, bgd) && Shaped(fs, Log(sb))
    ensures |m| == |bgd|
  {
    seq(|bgd|, g requires 0 <= g < |bgd| => fs[bgd[g].blockBitmap])
  }

  function BlockScanLimits(sb: SuperBlock, n: nat): (l: seq<nat>)
    ensures |l| == n
  {
    seq(n, g requires 0 <= g => ScanLimit(sb, g))
  }

  lemma BlockScanShape(fs: Image, sb: SuperBlock, bgd: seq<GroupDesc>)
    requires Geometry(sb, bgd) && Shaped(fs, Log(sb))
    ensures ScanShape(BlockScanMaps(fs, sb, bgd), BlockScanLimits(sb, |bgd|))
  {
  }

  /** The first free (group, index) of the block scan. */
  function FirstFree(fs: Image, sb: SuperBlock, bgd: seq<GroupDesc>): Option<(nat, nat)>
    requires Geometry(sb, bgd) && Shaped(fs, Log(sb))
  {
    BlockScanShape(fs, sb, bgd);
    FirstClear(BlockScanMaps(fs, sb, bgd), BlockScanLimits(sb, |bgd|), 0, 0)
  }

  /**
   * The scan returns the first (group, index) in ascending order whose bit is
   * clear in its group's bitmap, and returns none exactly when every bit it tests
   * is set.
   */
  lemma FirstFreeFacts(fs: Image, sb: SuperBlock, bgd: seq<GroupDesc>)
    requires Geometry(sb, bgd) && Shaped(fs, Log(sb))
    ensures FirstFree(fs, sb, bgd).Some? ==>
      var (g, i) := FirstFree(fs, sb, bgd).value;
      && g < |bgd| && i < ScanLimit(sb, g) && !BitAt(fs[bgd[g].blockBitmap], i)
      && forall h: nat, j: nat | Before(h, j, g, i) && h < |bgd| && j < ScanLimit(sb, h) ::
           BitAt(fs[bgd[h].blockBitmap], j)
    ensures FirstFree(fs, sb, bgd).None? <==>
      forall h: nat, j: nat | h < |bgd| && j < ScanLimit(sb, h) :: BitAt(fs[bgd[h].blockBitmap], j)
  {
    var maps, lims := BlockScanMaps(fs, sb, bgd), BlockScanLimits(sb, |bgd|);
    BlockScanShape(fs, sb, bgd);
    FirstClearLeast(maps, lims, 0, 0);
    if FirstFree(fs, sb, bgd).Some? {
      var (g, i) := FirstFree(fs, sb, bgd).value;
      forall h: nat, j: nat | Before(h, j, g, i) && h < |bgd| && j < ScanLimit(sb, h)
        ensures BitAt(fs[bgd[h].blockBitmap], j)
      {
        assert !Clear(maps, lims, h, j);
      }
      assert !(forall h: nat, j: nat | h < |bgd| && j < ScanLimit(sb, h) :: BitAt(fs[bgd[h].blockBitmap], j)) by {
        assert Clear(maps, lims, g, i);
      }
    } else {
      forall h: nat, j: nat | h < |bgd| && j < ScanLimit(sb, h)
        ensures BitAt(fs[bgd[h].blockBitmap], j)
      {
        assert !Clear(maps, lims, h, j);
      }
    }
  }

  /** Absolute number of block i of group g, `fdb + group * bpg + i` in uint32 arithmetic. */
  function AbsBlock(sb: SuperBlock, g: nat, i: nat): (r: u32)
    ensures sb.firstDataBlock + Mul(g, sb.blocksPerGroup) + i < U32_MOD ==> r == sb.firstDataBlock + Mul(g, sb.blocksPerGroup) + i
  {
    (sb.firstDataBlock + Mul(g, sb.blocksPerGroup) + i) % U32_MOD
  }

  /** Every block the scan can find lies inside the filesystem. */
  lemma ScanInRange(sb: SuperBlock, bgd: seq<GroupDesc>, g: nat, i: nat)
    requires Geometry(sb, bgd) && g < |bgd| && i < ScanLimit(sb, g)
    ensures AbsBlock(sb, g, i) == sb.firstDataBlock + Mul(g, sb.blocksPerGroup) + i < sb.blocksCount
  {
    GroupStart(sb, bgd, g);
    var start := sb.firstDataBlock + Mul(g, sb.blocksPerGroup);
    assert (sb.blocksCount - start) % U32_MOD == sb.blocksCount - start;
    assert start + i < sb.blocksCount;
  }

  /** Block i of group g is taggable, and `tagBlock` and `state` map it back to group g, bit i. */
  lemma AbsBlockLocates(sb: SuperBlock, bgd: seq<GroupDesc>, g: nat, i: nat)
    requires Geometry(sb, bgd) && g < |bgd| && i < ScanLimit(sb, g)
    ensures Taggable(sb, bgd, AbsBlock(sb, g, i))
    ensures BlockGroup(sb, AbsBlock(sb, g, i)) == g && BlockOffset(sb, AbsBlock(sb, g, i)) == i
  {
    ScanInRange(sb, bgd, g, i);
    var bpg := sb.blocksPerGroup;
    var abs := AbsBlock(sb, g, i);
    assert Sub32(abs, sb.firstDataBlock) == Mul(g, bpg) + i;
    DivModUnique(Mul(g, bpg) + i, bpg, g, i);
  }

  /**
   * `getIdleBlock`: the block it returns (None when the scan finds nothing and
   * the source's final assertion fails) and the image afterwards. The found
   * block's bit is set in its group's bitmap, then the block is overwritten with
   * zeros.
   */
  function IdleBlock(fs: Image, sb: SuperBlock, bgd: seq<GroupDesc>): (r: (Option<u32>, Image))
    requires Geometry(sb, bgd) && Shaped(fs, Log(sb))
    ensures Shaped(r.1, Log(sb))
    ensures r.0.Some? ==> r.0.value < sb.blocksCount && r.0.value as nat < |fs|
  {
    match FirstFree(fs, sb, bgd)
    case None => (None, fs)
    case Some((g, i)) =>
      FirstFreeFacts(fs, sb, bgd);
      var bm := bgd[g].blockBitmap;
      var fs1 := fs[bm := SetBitAt(fs[bm], i, true)];
      var abs := AbsBlock(sb, g, i);
      ScanInRange(sb, bgd, g, i);
      (Some(abs), fs1[abs := Zeros(BlockBytes(Log(sb)))])
  }

  /**
   * The block `getIdleBlock` returns is block (g, i) of the scan: the first free
   * one. It was free, is now marked allocated and reads as zeros, and no block
   * but it and its bitmap block changes. It returns none, changing nothing,
   * exactly when the scan finds no free block.
   */
  lemma IdleBlockSpec(fs: Image, sb: SuperBlock, bgd: seq<GroupDesc>)
    requires Geometry(sb, bgd) && Shaped(fs, Log(sb))
    ensures FirstFree(fs, sb, bgd).None? ==> IdleBlock(fs, sb, bgd) == (None, fs)
    ensures FirstFree(fs, sb, bgd).Some? ==>
      var (g, i) := FirstFree(fs, sb, bgd).value;
      var abs := AbsBlock(sb, g, i);
      && IdleBlock(fs, sb, bgd).0 == Some(abs)
      && Taggable(sb, bgd, abs) && BlockGroup(sb, abs) == g && BlockOffset(sb, abs) == i
      && !BlockState(fs, sb, bgd, abs)
      && IdleBlock(fs, sb, bgd).1[abs] == Zeros(BlockBytes(Log(sb)))
      && forall x | 0 <= x < |fs| && x != abs as nat && x != bgd[g].blockBitmap :: IdleBlock(fs, sb, bgd).1[x] == fs[x]
  {
    FirstFreeFacts(fs, sb, bgd);
    if FirstFree(fs, sb, bgd).Some? {
      var (g, i) := FirstFree(fs, sb, bgd).value;
      AbsBlockLocates(sb, bgd, g, i);
      ScanInRange(sb, bgd, g, i);
    }
  }

  /**
   * `getIdleBlock` changes the state of no block but the one it returns, provided
   * that block is not itself a bitmap block.
   */
  lemma IdleBlockMarks(fs: Image, sb: SuperBlock, bgd: seq<GroupDesc>, c: u32)
    requires Geometry(sb, bgd) && Shaped(fs, Log(sb)) && DistinctBitmaps(bgd) && Taggable(sb, bgd, c)
    requires IdleBlock(fs, sb, bgd).0.Some?
    requires forall g | 0 <= g < |bgd| :: bgd[g].blockBitmap != IdleBlock(fs, sb, bgd).0.value
    ensures BlockState(IdleBlock(fs, sb, bgd).1, sb, bgd, c)
         == (c == IdleBlock(fs, sb, bgd).0.value || BlockState(fs, sb, bgd, c))
  {
    IdleBlockSpec(fs, sb, bgd);
    var (g, i) := FirstFree(fs, sb, bgd).value;
    var abs := AbsBlock(sb, g, i);
    var fs1 := Tag(fs, sb, bgd, abs, true);
    assert IdleBlock(fs, sb, bgd).1 == fs1[abs := Zeros(BlockBytes(Log(sb)))];
    TagThenState(fs, sb, bgd, abs, true, c);
  }

  // ---------------------------------------------------------------------
  // Stateful managers
  // ---------------------------------------------------------------------

  /** Caches the superblock stored at byte 1024 of the device, in device block 1. */
  class SuperBlockManager {
    const disk: Disk
    var sb: SuperBlock

    constructor (d: Disk)
      requires d.Valid()
      ensures disk == d && sb == DecodeSuper(d.blocks[1])
    {
      disk := d;
      var b := d.Bread(1);
      sb := DecodeSuper(b);
    }

    /** `readSuperBlock` returns the cached record. */
    function ReadSuperBlock(): (r: SuperBlock)
      reads this
    {
      sb
    }

    /**
     * Replaces the cache and stores the record at the front of device block 1.
     * The rest of that device block comes from an uninitialised buffer, so it is
     * left unspecified.
     */
    method WriteSuperBlock(s: SuperBlock) returns (ok: bool)
      requires disk.Valid()
      modifies this, disk
      ensures ok && sb == s && disk.Valid()
      ensures disk.blocks[1][..SUPERBLOCK_BYTES] == EncodeSuper(s)
      ensures DecodeSuper(disk.blocks[1]) == s
      ensures forall n | 0 <= n < BLOCK_NUM && n != 1 :: disk.blocks[n] == old(disk.blocks[n])
    {
      sb := s;
      assert |Zeros(BLOCK_SIZE - SUPERBLOCK_BYTES)| == BLOCK_SIZE - SUPERBLOCK_BYTES;
      var tail: seq<byte> :| |tail| == BLOCK_SIZE - SUPERBLOCK_BYTES;
      disk.Bwrite(EncodeSuper(s) + tail, 1);
      SuperRoundTrip(s, tail);
      assert disk.blocks[1] == EncodeSuper(s) + tail;
      ok := true;
    }
  }

  /** Block bitmap operations and filesystem block I/O over the shared device. */
  class BlockManager {
    const disk: Disk
    const sbm: SuperBlockManager
    /** Cached copy of the group descriptor table, filled by `Refresh`. */
    var bgd: seq<GroupDesc>

    predicate Valid()
      reads this, disk
    {
      disk.Valid() && sbm.disk == disk
    }

    /** The cache and the superblock describe a filesystem that fits the device. */
    predicate Ready()
      reads this, disk, sbm
    {
      Valid() && Geometry(sbm.sb, bgd)
    }

    constructor (d: Disk, s: SuperBlockManager)
      requires d.Valid() && s.disk == d
      ensures Valid() && disk == d && sbm == s && bgd == []
    {
      disk := d;
      sbm := s;
      bgd := [];
    }

    /** The filesystem image of the device under the current block size. */
    function Fs(): (fs: Image)
      reads this, disk, sbm
      requires Valid()
      ensures Shaped(fs, Log(sbm.sb))
    {
      View(disk.blocks, Log(sbm.sb))
    }

    /** `readBlock(bid)`: copies device blocks bid << log .. ((bid + 1) << log) - 1 in order. */
    method ReadBlock(bid: nat) returns (b: seq<byte>)
      requires Valid() && bid < FsBlocks(Log(sbm.sb))
      ensures OnDevice(Log(sbm.sb), bid) && b == FsRead(disk.blocks, Log(sbm.sb), bid) && b == Fs()[bid]
    {
      ViewAt(disk.blocks, Log(sbm.sb), bid);
      var p := Pow2(Log(sbm.sb));
      var start := Mul(bid, p);
      var end := Mul(bid + 1, p);
      b := [];
      var i := start;
      while i < end
        invariant start <= i <= end
        invariant b == Join(disk.blocks[start..i])
      {
        var db := disk.Bread(i);
        JoinAppend(disk.blocks[start..i], [db]);
        assert disk.blocks[start..i + 1] == disk.blocks[start..i] + [db];
        b := b + db;
        i := i + 1;
      }
    }

    /** `writeBlock(block, bid)`: writes the block's device pieces in order. */
    method WriteBlock(block: seq<byte>, bid: nat)
      requires Valid() && bid < FsBlocks(Log(sbm.sb)) && |block| == BlockBytes(Log(sbm.sb))
      modifies disk
      ensures Valid()
      ensures OnDevice(Log(sbm.sb), bid) && disk.blocks == FsWrite(old(disk.blocks), Log(sbm.sb), bid, block)
      ensures Fs() == old(Fs())[bid := block]
    {
      OnDeviceBelow(Log(sbm.sb), bid);
      var p := Pow2(Log(sbm.sb));
      var start := Mul(bid, p);
      var end := Mul(bid + 1, p);
      var pieces := Chop(block, p);
      var i := start;
      while i < end
        invariant start <= i <= end && disk.Valid()
        invariant disk.blocks[..start] == old(disk.blocks)[..start]
        invariant disk.blocks[start..i] == pieces[..i - start]
        invariant disk.blocks[i..] == old(disk.blocks)[i..]
      {
        ghost var before := disk.blocks;
        disk.Bwrite(pieces[i - start], i);
        assert disk.blocks[..start] == before[..start];
        assert disk.blocks[start..i + 1] == before[start..i] + [pieces[i - start]];
        assert pieces[..i + 1 - start] == pieces[..i - start] + [pieces[i - start]];
        assert disk.blocks[i + 1..] == before[i + 1..];
        i := i + 1;
      }
      assert disk.blocks == disk.blocks[..start] + disk.blocks[start..end] + disk.blocks[end..];
      ViewWrite(old(disk.blocks), Log(sbm.sb), bid, block);
    }

    /** `refresh`: reloads one descriptor per group from block 1 + s_first_data_block. */
    method Refresh()
      requires Valid() && Loadable(Fs(), sbm.sb)
      modifies this
      ensures Valid() && Fs() == old(Fs())
      ensures bgd == StoredDescs(Fs(), sbm.sb)
    {
      var sb := sbm.sb;
      var table := ReadBlock(1 + sb.firstDataBlock);
      ghost var fs := Fs();
      var total := GroupCount(sb);
      bgd := [];
      ghost var stored := StoredDescs(fs, sb);
      assert table == fs[1 + sb.firstDataBlock];
      var i := 0;
      while i < total
        invariant 0 <= i <= total && sbm.sb == sb && Fs() == fs
        invariant bgd == stored[..i]
      {
        assert stored[i] == DescAt(table, i);
        assert stored[..i + 1] == stored[..i] + [stored[i]];
        bgd := bgd + [DescAt(table, i)];
        i := i + 1;
      }
      assert stored[..total] == stored;
    }

    /** `tagBlock(index, val)`: sets or clears the block's bit without looking at its old value. */
    method TagBlock(index: u32, val: bool) returns (ok: bool)
      requires Ready() && Taggable(sbm.sb, bgd, index)
      modifies disk
      ensures Valid() && ok
      ensures Fs() == Tag(old(Fs()), sbm.sb, bgd, index, val)
    {
      var sb := sbm.sb;
      var bitmapBid := bgd[BlockGroup(sb, index)].blockBitmap;
      var bitmap := ReadBlock(bitmapBid);
      bitmap := SetBitAt(bitmap, BlockOffset(sb, index), val);
      WriteBlock(bitmap, bitmapBid);
      ok := true;
    }

    /** `state(index)`: the block's bit in its group's bitmap. */
    method State(index: u32) returns (r: bool)
      requires Ready() && Taggable(sbm.sb, bgd, index)
      ensures r == BlockState(Fs(), sbm.sb, bgd, index)
    {
      var sb := sbm.sb;
      var bitmapBid := bgd[BlockGroup(sb, index)].blockBitmap;
      var bitmap := ReadBlock(bitmapBid);
      r := BitAt(bitmap, BlockOffset(sb, index));
    }

    /**
     * The end of `getIdleBlock` once the scan stops at bit i of group g: sets the
     * bit in the bitmap, zero-fills the block and returns its number.
     */
    method Claim(g: nat, i: nat, bitmap: seq<byte>) returns (abs: u32)
      requires Ready() && FirstFree(Fs(), sbm.sb, bgd) == Some((g, i))
      requires g < |bgd| && bitmap == Fs()[bgd[g].blockBitmap]
      modifies disk
      ensures Valid()
      ensures (Some(abs), Fs()) == IdleBlock(old(Fs()), sbm.sb, bgd)
    {
      var sb := sbm.sb;
      FirstFreeFacts(Fs(), sb, bgd);
      ScanInRange(sb, bgd, g, i);
      var marked := SetBitAt(bitmap, i, true);
      WriteBlock(marked, bgd[g].blockBitmap);
      abs := AbsBlock(sb, g, i);
      WriteBlock(Zeros(BlockBytes(Log(sb))), abs);
    }

    /**
     * `getIdleBlock`: scans the groups in order and each group's bitmap up to
     * min(remaining blocks, blocks per group); marks the first clear bit,
     * zero-fills that block and returns its number. None when every bit is set.
     */
    method GetIdleBlock() returns (r: Option<u32>)
      requires Ready()
      modifies disk
      ensures Valid()
      ensures (r, Fs()) == IdleBlock(old(Fs()), sbm.sb, bgd)
    {
      var sb := sbm.sb;
      ghost var fs := Fs();
      ghost var maps, lims := BlockScanMaps(fs, sb, bgd), BlockScanLimits(sb, |bgd|);
      BlockScanShape(fs, sb, bgd);
      var group: nat := 0;
      while group < |bgd|
        invariant 0 <= group <= |bgd| && Valid() && Fs() == fs
        invariant FirstFree(fs, sb, bgd) == FirstClear(maps, lims, group, 0)
      {
        var bitmap := ReadBlock(bgd[group].blockBitmap);
        assert bitmap == maps[group];
        var limit := ScanLimit(sb, group);
        assert limit == lims[group];
        var found := FirstClearBit(bitmap, limit);
        if found.Some? {
          var i := found.value;
          FirstClearSkips(maps, lims, group, 0, i);
          assert FirstFree(fs, sb, bgd) == Some((group, i));
          var abs := Claim(group, i, bitmap);
          return Some(abs);
        }
        FirstClearSkips(maps, lims, group, 0, limit);
        assert FirstClear(maps, lims, group, limit) == FirstClear(maps, lims, group + 1, 0);
        group := group + 1;
      }
      return None;
    }
  }
}
