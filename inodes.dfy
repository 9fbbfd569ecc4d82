/**
 * The inode table and the inode bitmaps, as functions of the filesystem image.
 *
 * Inode numbers are 1-based: inode iid lives in group (iid - 1) / ipg, at
 * index (iid - 1) % ipg of that group; the index selects a block of the
 * group's inode table and a 128-byte slot in it. Allocation takes the first
 * clear bit of the inode bitmaps in (group, index) order.
 */
module Inodes {
  import opened Bytes
  import opened Device
  import opened Ext2
  import opened Scan
  import opened Blocks
  import opened Arith

  // ---------------------------------------------------------------------
  // Where an inode lives
  // ---------------------------------------------------------------------

  /** iid names an inode of an existing group, so the source's `bgd_[block_group]` is in range. */
  predicate ValidIid(sb: SuperBlock, bgd: seq<GroupDesc>, iid: int)
    requires sb.inodesPerGroup > 0
  {
    1 <= iid && Div(iid - 1, sb.inodesPerGroup) < |bgd|
  }

  function InodeGroup(sb: SuperBlock, iid: nat): nat
    requires sb.inodesPerGroup > 0 && iid >= 1
  {
    Div(iid - 1, sb.inodesPerGroup)
  }

  function InodeIndex(sb: SuperBlock, iid: nat): nat
    requires sb.inodesPerGroup > 0 && iid >= 1
  {
    Mod(iid - 1, sb.inodesPerGroup)
  }

  /** The inode-table block that holds inode iid. */
  function InodeBlock(sb: SuperBlock, bgd: seq<GroupDesc>, iid: nat): nat
    requires sb.inodesPerGroup > 0 && ValidIid(sb, bgd, iid)
  {
    bgd[InodeGroup(sb, iid)].inodeTable + Div(InodeIndex(sb, iid), InodesPerBlock(sb))
  }

  /** The slot of inode iid within its inode-table block. */
  function InodeSlot(sb: SuperBlock, bgd: seq<GroupDesc>, iid: nat): (r: nat)
    requires sb.inodesPerGroup > 0 && ValidIid(sb, bgd, iid)
    ensures r < InodesPerBlock(sb)
  {
    Mod(InodeIndex(sb, iid), InodesPerBlock(sb))
  }

  /** The table block lies inside the filesystem and the slot inside the block. */
  lemma InodeLocation(sb: SuperBlock, bgd: seq<GroupDesc>, iid: nat)
    requires Geometry(sb, bgd) && ValidIid(sb, bgd, iid)
    ensures InodeBlock(sb, bgd, iid) < sb.blocksCount
    ensures InodeSlot(sb, bgd, iid) < InodesPerBlock(sb)
    ensures INODE_BYTES * InodeSlot(sb, bgd, iid) + INODE_BYTES <= BlockBytes(Log(sb))
  {
    LogBound(sb, bgd);
    var ipb := InodesPerBlock(sb);
    var local := InodeIndex(sb, iid);
    var g := InodeGroup(sb, iid);
    TableBlockBound(local, sb.inodesPerGroup, ipb);
    assert bgd[g].inodeTable + InodeTableBlocks(sb) <= sb.blocksCount;
    SlotBound(InodeSlot(sb, bgd, iid), ipb, BlockBytes(Log(sb)));
  }

  lemma TableBlockBound(local: nat, ipg: nat, ipb: nat)
    requires local < ipg && ipb > 0
    ensures Div(local, ipb) < Div(ipg + ipb - 1, ipb)
  {
    var q := Div(local, ipb);
    DivMod(local, ipb);
    var t := Div(ipg + ipb - 1, ipb);
    DivMod(ipg + ipb - 1, ipb);
    if t <= q {
      MulMono(t, q, ipb);
    }
  }

  lemma SlotBound(slot: nat, ipb: nat, bytes: nat)
    requires slot < ipb && ipb == bytes / INODE_BYTES
    ensures INODE_BYTES * slot + INODE_BYTES <= bytes
  {
  }

  /** The (table block, slot) pair of inode iid. */
  function InodeLoc(sb: SuperBlock, bgd: seq<GroupDesc>, iid: nat): (nat, nat)
    requires sb.inodesPerGroup > 0 && ValidIid(sb, bgd, iid)
  {
    (InodeBlock(sb, bgd, iid), InodeSlot(sb, bgd, iid))
  }

  /** The inode tables of different groups share no block. */
  predicate TablesDisjoint(sb: SuperBlock, bgd: seq<GroupDesc>)
  {
    forall g, h | 0 <= g < |bgd| && 0 <= h < |bgd| && g != h ::
      bgd[g].inodeTable + InodeTableBlocks(sb) <= bgd[h].inodeTable
      || bgd[h].inodeTable + InodeTableBlocks(sb) <= bgd[g].inodeTable
  }

  /** With disjoint tables, different inodes occupy different slots. */
  lemma InodeLocInjective(sb: SuperBlock, bgd: seq<GroupDesc>, iid: nat, iid': nat)
    requires sb.inodesPerGroup > 0 && TablesDisjoint(sb, bgd)
    requires ValidIid(sb, bgd, iid) && ValidIid(sb, bgd, iid') && iid != iid'
    ensures InodeLoc(sb, bgd, iid) != InodeLoc(sb, bgd, iid')
  {
    var ipg, ipb := sb.inodesPerGroup, InodesPerBlock(sb);
    var g, g' := InodeGroup(sb, iid), InodeGroup(sb, iid');
    var l, l' := InodeIndex(sb, iid), InodeIndex(sb, iid');
    DivMod(iid - 1, ipg);
    DivMod(iid' - 1, ipg);
    var t, t' := bgd[g].inodeTable, bgd[g'].inodeTable;
    if g == g' {
      assert l != l';
    } else {
      assert t + InodeTableBlocks(sb) <= t' || t' + InodeTableBlocks(sb) <= t;
    }
    SplitDistinct(t, t', l, l', ipg, ipb, InodeTableBlocks(sb));
  }

  /**
   * Two (table, index) pairs split into (table + index / ipb, index % ipb) differently,
   * when the tables are the same and the indices differ, or the tables are apart.
   */
  lemma SplitDistinct(t: nat, t': nat, l: nat, l': nat, ipg: nat, ipb: nat, itb: nat)
    requires ipb > 0 && l < ipg && l' < ipg && itb == Div(ipg + ipb - 1, ipb)
    requires (t == t' && l != l') || t + itb <= t' || t' + itb <= t
    ensures t + Div(l, ipb) != t' + Div(l', ipb) || Mod(l, ipb) != Mod(l', ipb)
  {
    DivMod(l, ipb);
    DivMod(l', ipb);
    if t != t' {
      TableBlockBound(l, ipg, ipb);
      TableBlockBound(l', ipg, ipb);
    }
  }

  /** `read_inode(iid)`: the record in its slot of the table block. */
  function ReadInode(fs: Image, sb: SuperBlock, bgd: seq<GroupDesc>, iid: nat): Inode
    requires Geometry(sb, bgd) && Shaped(fs, Log(sb)) && ValidIid(sb, bgd, iid)
  {
    InodeLocation(sb, bgd, iid);
    var blk := fs[InodeBlock(sb, bgd, iid)];
    DecodeInode(blk[INODE_BYTES * InodeSlot(sb, bgd, iid)..])
  }

  /** The image after `write_inode(in, iid)`: the table block with the slot overwritten. */
  function WriteInode(fs: Image, sb: SuperBlock, bgd: seq<GroupDesc>, iid: nat, ino: Inode): (d: Image)
    requires Geometry(sb, bgd) && Shaped(fs, Log(sb)) && ValidIid(sb, bgd, iid)
    ensures Shaped(d, Log(sb))
    ensures forall x | 0 <= x < |fs| && x != InodeBlock(sb, bgd, iid) :: d[x] == fs[x]
  {
    InodeLocation(sb, bgd, iid);
    var tb := InodeBlock(sb, bgd, iid);
    var blk := fs[tb];
    fs[tb := Splice(blk, INODE_BYTES * InodeSlot(sb, bgd, iid), EncodeInode(ino))]
  }

  /** A decoded record depends only on its own 128 bytes. */
  lemma DecodeInodePrefix(s: seq<byte>, t: seq<byte>)
    requires |s| >= INODE_BYTES && |t| >= INODE_BYTES && s[..INODE_BYTES] == t[..INODE_BYTES]
    ensures DecodeInode(s) == DecodeInode(t)
  {
    DecodeWordsPrefix(s, t, INODE_BYTES / 4);
  }

  /**
   * `write_inode` then `read_inode` returns the record written; every inode in
   * another slot reads as before.
   */
  lemma ReadWriteInode(fs: Image, sb: SuperBlock, bgd: seq<GroupDesc>, iid: nat, ino: Inode, iid': nat)
    requires Geometry(sb, bgd) && Shaped(fs, Log(sb)) && ValidIid(sb, bgd, iid) && ValidIid(sb, bgd, iid')
    requires iid' == iid || InodeLoc(sb, bgd, iid') != InodeLoc(sb, bgd, iid)
    ensures ReadInode(WriteInode(fs, sb, bgd, iid, ino), sb, bgd, iid')
         == if iid' == iid then ino else ReadInode(fs, sb, bgd, iid')
  {
    InodeLocation(sb, bgd, iid);
    InodeLocation(sb, bgd, iid');
    var log := Log(sb);
    var tb, tb' := InodeBlock(sb, bgd, iid), InodeBlock(sb, bgd, iid');
    var off, off' := INODE_BYTES * InodeSlot(sb, bgd, iid), INODE_BYTES * InodeSlot(sb, bgd, iid');
    var blk := fs[tb];
    var nb := Splice(blk, off, EncodeInode(ino));
    if iid' == iid {
      assert nb[off..] == EncodeInode(ino) + nb[off + INODE_BYTES..];
      InodeRoundTrip(ino, nb[off + INODE_BYTES..]);
    } else if tb' == tb {
      assert InodeSlot(sb, bgd, iid') != InodeSlot(sb, bgd, iid);
      SlotsApart(InodeSlot(sb, bgd, iid), InodeSlot(sb, bgd, iid'));
      assert nb[off'..][..INODE_BYTES] == blk[off'..][..INODE_BYTES];
      DecodeInodePrefix(nb[off'..], blk[off'..]);
    }
  }

  lemma SlotsApart(s: nat, s': nat)
    requires s != s'
    ensures INODE_BYTES * s + INODE_BYTES <= INODE_BYTES * s' || INODE_BYTES * s' + INODE_BYTES <= INODE_BYTES * s
  {
    if s < s' {
      MulMono(s + 1, s', INODE_BYTES);
    } else {
      MulMono(s' + 1, s, INODE_BYTES);
    }
  }

  /** Writing back the record just read leaves the image unchanged. */
  lemma WriteInodeSame(fs: Image, sb: SuperBlock, bgd: seq<GroupDesc>, iid: nat)
    requires Geometry(sb, bgd) && Shaped(fs, Log(sb)) && ValidIid(sb, bgd, iid)
    ensures WriteInode(fs, sb, bgd, iid, ReadInode(fs, sb, bgd, iid)) == fs
  {
    InodeLocation(sb, bgd, iid);
    var log := Log(sb);
    var tb := InodeBlock(sb, bgd, iid);
    var off := INODE_BYTES * InodeSlot(sb, bgd, iid);
    var blk := fs[tb];
    var rec := blk[off..off + INODE_BYTES];
    DecodeInodePrefix(blk[off..], rec);
    InodeBytesRoundTrip(rec);
    assert Splice(blk, off, rec) == blk;
  }

  // ---------------------------------------------------------------------
  // Inode bitmaps and allocation
  // ---------------------------------------------------------------------

  function GroupInodeBitmap(fs: Image, sb: SuperBlock, bgd: seq<GroupDesc>, g: nat): (m: seq<byte>)
    requires Geometry(sb, bgd) && Shaped(fs, Log(sb)) && g < |bgd|
    ensures |m| == BlockBytes(Log(sb))
  {
    fs[bgd[g].inodeBitmap]
  }

  /** Whether inode iid is allocated: its bit in its group's inode bitmap. */
  predicate InodeState(fs: Image, sb: SuperBlock, bgd: seq<GroupDesc>, iid: nat)
    requires Geometry(sb, bgd) && Shaped(fs, Log(sb)) && ValidIid(sb, bgd, iid)
  {
    BitAt(GroupInodeBitmap(fs, sb, bgd, InodeGroup(sb, iid)), InodeIndex(sb, iid))
  }

  /** What `getIdleInode` scans: every group's inode bitmap, ipg bits each. */
  function InodeScanMaps(fs: Image, sb: SuperBlock, bgd: seq<GroupDesc>): (m: seq<seq<byte>>)
    requires Geometry(sb, bgd) && Shaped(fs, Log(sb))
    ensures |m| == |bgd|
  {
    seq(|bgd|, g requires 0 <= g < |bgd| => GroupInodeBitmap(fs, sb, bgd, g))
  }

  function InodeScanLimits(sb: SuperBlock, n: nat): (l: seq<nat>)
    ensures |l| == n
  {
    seq(n, _ => sb.inodesPerGroup)
  }

  lemma InodeScanShape(fs: Image, sb: SuperBlock, bgd: seq<GroupDesc>)
    requires Geometry(sb, bgd) && Shaped(fs, Log(sb))
    ensures ScanShape(InodeScanMaps(fs, sb, bgd), InodeScanLimits(sb, |bgd|))
  {
  }

  function FirstIdleInode(fs: Image, sb: SuperBlock, bgd: seq<GroupDesc>): Option<(nat, nat)>
    requires Geometry(sb, bgd) && Shaped(fs, Log(sb))
  {
    InodeScanShape(fs, sb, bgd);
    FirstClear(InodeScanMaps(fs, sb, bgd), InodeScanLimits(sb, |bgd|), 0, 0)
  }

  /** Inode number `group * ipg + i + 1`, in uint32 arithmetic. */
  function InodeNumber(sb: SuperBlock, g: nat, i: nat): (r: u32)
    ensures Mul(g, sb.inodesPerGroup) + i + 1 < U32_MOD ==> r == Mul(g, sb.inodesPerGroup) + i + 1
  {
    (Mul(g, sb.inodesPerGroup) + i + 1) % U32_MOD
  }

  /**
   * `getIdleInode`: the inode number it reports (None for a false return) and
   * the image afterwards, with the found bit set in its group's inode bitmap.
   */
  function IdleInode(fs: Image, sb: SuperBlock, bgd: seq<GroupDesc>): (r: (Option<u32>, Image))
    requires Geometry(sb, bgd) && Shaped(fs, Log(sb))
    ensures Shaped(r.1, Log(sb))
  {
    match FirstIdleInode(fs, sb, bgd)
    case None => (None, fs)
    case Some((g, i)) =>
      InodeScanShape(fs, sb, bgd);
      FirstClearLeast(InodeScanMaps(fs, sb, bgd), InodeScanLimits(sb, |bgd|), 0, 0);
      var bm := bgd[g].inodeBitmap;
      (Some(InodeNumber(sb, g, i)), fs[bm := SetBitAt(GroupInodeBitmap(fs, sb, bgd, g), i, true)])
  }

  /** The number of inodes fits in 32 bits, as `s_inodes_count_` does. */
  predicate InodeCountFits(sb: SuperBlock, bgd: seq<GroupDesc>)
  {
    Mul(|bgd|, sb.inodesPerGroup) < U32_MOD
  }

  lemma InodeNumberLocates(sb: SuperBlock, bgd: seq<GroupDesc>, g: nat, i: nat)
    requires Geometry(sb, bgd) && InodeCountFits(sb, bgd) && g < |bgd| && i < sb.inodesPerGroup
    ensures InodeNumber(sb, g, i) == Mul(g, sb.inodesPerGroup) + i + 1
    ensures ValidIid(sb, bgd, InodeNumber(sb, g, i))
    ensures InodeGroup(sb, InodeNumber(sb, g, i)) == g && InodeIndex(sb, InodeNumber(sb, g, i)) == i
  {
    var ipg := sb.inodesPerGroup;
    MulMono(g + 1, |bgd|, ipg);
    DivModUnique(Mul(g, ipg) + i, ipg, g, i);
  }

  /**
   * `getIdleInode` reports false, changing nothing, exactly when every inode is
   * allocated. Otherwise it reports the least free inode (every inode of a lower
   * number is allocated), which is now allocated, and the state of every other
   * inode is unchanged.
   */
  lemma IdleInodeSpec(fs: Image, sb: SuperBlock, bgd: seq<GroupDesc>)
    requires Geometry(sb, bgd) && Shaped(fs, Log(sb)) && InodeCountFits(sb, bgd) && DistinctInodeBitmaps(bgd)
    ensures IdleInode(fs, sb, bgd).0.None? <==>
      forall iid: nat | ValidIid(sb, bgd, iid) :: InodeState(fs, sb, bgd, iid)
    ensures IdleInode(fs, sb, bgd).0.None? ==> IdleInode(fs, sb, bgd).1 == fs
    ensures IdleInode(fs, sb, bgd).0.Some? ==>
      var iid := IdleInode(fs, sb, bgd).0.value;
      var fs' := IdleInode(fs, sb, bgd).1;
      && ValidIid(sb, bgd, iid)
      && !InodeState(fs, sb, bgd, iid)
      && (forall j: nat | ValidIid(sb, bgd, j) && j < iid :: InodeState(fs, sb, bgd, j))
      && (forall j: nat | ValidIid(sb, bgd, j) :: InodeState(fs', sb, bgd, j) == (j == iid || InodeState(fs, sb, bgd, j)))
  {
    var maps, lims := InodeScanMaps(fs, sb, bgd), InodeScanLimits(sb, |bgd|);
    InodeScanShape(fs, sb, bgd);
    FirstClearLeast(maps, lims, 0, 0);
    match FirstIdleInode(fs, sb, bgd)
    case None =>
      forall iid: nat | ValidIid(sb, bgd, iid)
        ensures InodeState(fs, sb, bgd, iid)
      {
        assert !Clear(maps, lims, InodeGroup(sb, iid), InodeIndex(sb, iid));
      }
    case Some((g, i)) =>
      InodeNumberLocates(sb, bgd, g, i);
      var iid := InodeNumber(sb, g, i);
      assert !(forall j: nat | ValidIid(sb, bgd, j) :: InodeState(fs, sb, bgd, j)) by {
        assert !InodeState(fs, sb, bgd, iid);
      }
      forall j: nat | ValidIid(sb, bgd, j) && j < iid
        ensures InodeState(fs, sb, bgd, j)
      {
        IidOrder(sb, bgd, j, iid);
        assert !Clear(maps, lims, InodeGroup(sb, j), InodeIndex(sb, j));
      }
      forall j: nat | ValidIid(sb, bgd, j)
        ensures InodeState(IdleInode(fs, sb, bgd).1, sb, bgd, j) == (j == iid || InodeState(fs, sb, bgd, j))
      {
        IdleInodeBit(fs, sb, bgd, g, i, j);
      }
  }

  /** Lower inode numbers come earlier in the scan. */
  lemma IidOrder(sb: SuperBlock, bgd: seq<GroupDesc>, j: nat, iid: nat)
    requires sb.inodesPerGroup > 0 && ValidIid(sb, bgd, j) && ValidIid(sb, bgd, iid) && j < iid
    ensures Before(InodeGroup(sb, j), InodeIndex(sb, j), InodeGroup(sb, iid), InodeIndex(sb, iid))
  {
    QuotientOrder(j - 1, iid - 1, sb.inodesPerGroup);
  }

  /** Division by d keeps the order of numbers, refined by the remainder. */
  lemma QuotientOrder(a: nat, b: nat, d: nat)
    requires a < b && d > 0
    ensures Div(a, d) < Div(b, d) || (Div(a, d) == Div(b, d) && Mod(a, d) < Mod(b, d))
  {
    DivMod(a, d);
    DivMod(b, d);
  }

  /** Groups keep their inode bitmaps in different blocks. */
  predicate DistinctInodeBitmaps(bgd: seq<GroupDesc>)
  {
    forall g, h | 0 <= g < |bgd| && 0 <= h < |bgd| && g != h :: bgd[g].inodeBitmap != bgd[h].inodeBitmap
  }

  lemma IdleInodeBit(fs: Image, sb: SuperBlock, bgd: seq<GroupDesc>, g: nat, i: nat, j: nat)
    requires Geometry(sb, bgd) && Shaped(fs, Log(sb)) && InodeCountFits(sb, bgd) && DistinctInodeBitmaps(bgd)
    requires FirstIdleInode(fs, sb, bgd) == Some((g, i)) && ValidIid(sb, bgd, j)
    requires g < |bgd| && i < sb.inodesPerGroup
    ensures InodeState(IdleInode(fs, sb, bgd).1, sb, bgd, j) == (j == InodeNumber(sb, g, i) || InodeState(fs, sb, bgd, j))
  {
    InodeNumberLocates(sb, bgd, g, i);
    var bm := bgd[g].inodeBitmap;
    var h := InodeGroup(sb, j);
    var map0 := GroupInodeBitmap(fs, sb, bgd, g);
    if h == g && j != InodeNumber(sb, g, i) {
      DivMod(j - 1, sb.inodesPerGroup);
    }
  }

  /**
   * The image after `del_inode(iid)`, or None when the source's assertion that
   * the inode is allocated fails. It clears the inode's bit and nothing else.
   */
  function DelInode(fs: Image, sb: SuperBlock, bgd: seq<GroupDesc>, iid: nat): (r: Option<Image>)
    requires Geometry(sb, bgd) && Shaped(fs, Log(sb)) && ValidIid(sb, bgd, iid)
    ensures r.Some? ==> Shaped(r.value, Log(sb))
  {
    if !InodeState(fs, sb, bgd, iid) then None
    else
      var g := InodeGroup(sb, iid);
      Some(fs[bgd[g].inodeBitmap := SetBitAt(GroupInodeBitmap(fs, sb, bgd, g), InodeIndex(sb, iid), false)])
  }

  /** `del_inode` fails exactly on a free inode; otherwise only that inode becomes free. */
  lemma DelInodeSpec(fs: Image, sb: SuperBlock, bgd: seq<GroupDesc>, iid: nat, j: nat)
    requires Geometry(sb, bgd) && Shaped(fs, Log(sb)) && DistinctInodeBitmaps(bgd)
    requires ValidIid(sb, bgd, iid) && ValidIid(sb, bgd, j)
    ensures DelInode(fs, sb, bgd, iid).None? <==> !InodeState(fs, sb, bgd, iid)
    ensures DelInode(fs, sb, bgd, iid).Some? ==>
      InodeState(DelInode(fs, sb, bgd, iid).value, sb, bgd, j) == (j != iid && InodeState(fs, sb, bgd, j))
  {
    if InodeState(fs, sb, bgd, iid) {
      var g, h := InodeGroup(sb, iid), InodeGroup(sb, j);
      var map0 := GroupInodeBitmap(fs, sb, bgd, g);
      var fs1 := fs[bgd[g].inodeBitmap := SetBitAt(map0, InodeIndex(sb, iid), false)];
      assert DelInode(fs, sb, bgd, iid) == Some(fs1);
      if h == g {
        if j != iid {
          InodeSlotInjective(sb, iid, j);
        }
        assert GroupInodeBitmap(fs1, sb, bgd, h) == SetBitAt(map0, InodeIndex(sb, iid), false);
      } else {
        assert GroupInodeBitmap(fs1, sb, bgd, h) == GroupInodeBitmap(fs, sb, bgd, h);
      }
    }
  }

  /** Two inode numbers in the same group have different indexes in it. */
  lemma InodeSlotInjective(sb: SuperBlock, iid: nat, j: nat)
    requires sb.inodesPerGroup > 0 && iid >= 1 && j >= 1 && iid != j
    requires InodeGroup(sb, iid) == InodeGroup(sb, j)
    ensures InodeIndex(sb, iid) != InodeIndex(sb, j)
  {
    DivMod(iid - 1, sb.inodesPerGroup);
    DivMod(j - 1, sb.inodesPerGroup);
  }

  /** Freeing the inode `getIdleInode` just allocated restores the image. */
  lemma DelUndoesIdle(fs: Image, sb: SuperBlock, bgd: seq<GroupDesc>)
    requires Geometry(sb, bgd) && Shaped(fs, Log(sb)) && InodeCountFits(sb, bgd)
    requires IdleInode(fs, sb, bgd).0.Some?
    ensures ValidIid(sb, bgd, IdleInode(fs, sb, bgd).0.value)
    ensures DelInode(IdleInode(fs, sb, bgd).1, sb, bgd, IdleInode(fs, sb, bgd).0.value) == Some(fs)
  {
    var maps, lims := InodeScanMaps(fs, sb, bgd), InodeScanLimits(sb, |bgd|);
    InodeScanShape(fs, sb, bgd);
    FirstClearLeast(maps, lims, 0, 0);
    var (g, i) := FirstIdleInode(fs, sb, bgd).value;
    InodeNumberLocates(sb, bgd, g, i);
    var bm := bgd[g].inodeBitmap;
    var map0 := GroupInodeBitmap(fs, sb, bgd, g);
    var fs1 := fs[bm := SetBitAt(map0, i, true)];
    SetBitAtRestore(map0, i, true);
    assert fs1[bm := map0] == fs;
  }

  /**
   * `new_inode(in)`: allocates an inode (None when `getIdleInode` fails and the
   * source's assertion aborts) and stores the record in its slot.
   */
  function NewInode(fs: Image, sb: SuperBlock, bgd: seq<GroupDesc>, ino: Inode): (r: (Option<u32>, Image))
    requires Geometry(sb, bgd) && Shaped(fs, Log(sb)) && InodeCountFits(sb, bgd)
    ensures Shaped(r.1, Log(sb))
    ensures r.0.Some? ==> ValidIid(sb, bgd, r.0.value)
  {
    var (found, fs1) := IdleInode(fs, sb, bgd);
    match found
    case None => (None, fs1)
    case Some(iid) =>
      IdleInodeValid(fs, sb, bgd);
      (Some(iid), WriteInode(fs1, sb, bgd, iid, ino))
  }

  lemma IdleInodeValid(fs: Image, sb: SuperBlock, bgd: seq<GroupDesc>)
    requires Geometry(sb, bgd) && Shaped(fs, Log(sb)) && InodeCountFits(sb, bgd)
    ensures IdleInode(fs, sb, bgd).0.Some? ==> ValidIid(sb, bgd, IdleInode(fs, sb, bgd).0.value)
  {
    if FirstIdleInode(fs, sb, bgd).Some? {
      InodeScanShape(fs, sb, bgd);
      FirstClearLeast(InodeScanMaps(fs, sb, bgd), InodeScanLimits(sb, |bgd|), 0, 0);
      var (g, i) := FirstIdleInode(fs, sb, bgd).value;
      InodeNumberLocates(sb, bgd, g, i);
    }
  }

  /** No inode bitmap lies inside an inode table. */
  predicate BitmapsOutsideTables(sb: SuperBlock, bgd: seq<GroupDesc>)
  {
    forall g, h | 0 <= g < |bgd| && 0 <= h < |bgd| ::
      !(bgd[h].inodeTable <= bgd[g].inodeBitmap < bgd[h].inodeTable + InodeTableBlocks(sb))
  }

  /** Then writing an inode record leaves every inode bitmap as it was. */
  lemma TableBlockNotBitmap(sb: SuperBlock, bgd: seq<GroupDesc>, iid: nat, g: nat)
    requires sb.inodesPerGroup > 0 && BitmapsOutsideTables(sb, bgd) && ValidIid(sb, bgd, iid) && g < |bgd|
    ensures InodeBlock(sb, bgd, iid) != bgd[g].inodeBitmap
  {
    var h := InodeGroup(sb, iid);
    OffsetInTable(bgd[h].inodeTable, bgd[g].inodeBitmap, InodeIndex(sb, iid), sb.inodesPerGroup,
      InodesPerBlock(sb), InodeTableBlocks(sb));
  }

  lemma OffsetInTable(t: nat, b: nat, l: nat, ipg: nat, ipb: nat, itb: nat)
    requires ipb > 0 && l < ipg && itb == Div(ipg + ipb - 1, ipb) && !(t <= b < t + itb)
    ensures t + Div(l, ipb) != b
  {
    TableBlockBound(l, ipg, ipb);
  }

  /** The inode `new_inode` returns holds the given record and is allocated, and was free before. */
  lemma NewInodeSpec(fs: Image, sb: SuperBlock, bgd: seq<GroupDesc>, ino: Inode)
    requires Geometry(sb, bgd) && Shaped(fs, Log(sb)) && InodeCountFits(sb, bgd)
    requires DistinctInodeBitmaps(bgd) && BitmapsOutsideTables(sb, bgd)
    requires NewInode(fs, sb, bgd, ino).0.Some?
    ensures ValidIid(sb, bgd, NewInode(fs, sb, bgd, ino).0.value)
    ensures ReadInode(NewInode(fs, sb, bgd, ino).1, sb, bgd, NewInode(fs, sb, bgd, ino).0.value) == ino
    ensures !InodeState(fs, sb, bgd, NewInode(fs, sb, bgd, ino).0.value)
    ensures InodeState(NewInode(fs, sb, bgd, ino).1, sb, bgd, NewInode(fs, sb, bgd, ino).0.value)
  {
    IdleInodeSpec(fs, sb, bgd);
    var (iid, fs1) := (IdleInode(fs, sb, bgd).0.value, IdleInode(fs, sb, bgd).1);
    ReadWriteInode(fs1, sb, bgd, iid, ino, iid);
    var h := InodeGroup(sb, iid);
    TableBlockNotBitmap(sb, bgd, iid, h);
  }
}
