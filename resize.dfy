/**
 * `resize(iid, size)`: sets a file's size. The number of blocks in use is
 * taken from `i_blocks` (in 512-byte sectors) and the number needed from the
 * new size; a shrink frees the direct slots past the new end and then the
 * single-, double- and triple-indirect subtrees from the new end on, a grow
 * allocates the missing blocks one by one. The inode is then given the new
 * size and sector count and written back.
 */
module Resizing {
  import opened Bytes
  import opened Device
  import opened Ext2
  import opened Blocks
  import opened Arith
  import opened Addressing
  import opened Allocation
  import opened Freeing
  import opened Inodes

  /** `2 << log`: sectors of 512 bytes in one filesystem block. */
  function Sectors(sb: SuperBlock): (n: nat)
    ensures n >= 2
  {
    2 * Pow2(Log(sb))
  }

  /** `used_block`: whole blocks recorded in `i_blocks`. */
  function UsedBlocks(sb: SuperBlock, ino: Inode): (r: nat)
    ensures Mul(r, Sectors(sb)) <= ino.blocks < Mul(r + 1, Sectors(sb))
  {
    DivMod(ino.blocks, Sectors(sb));
    MulSucc(Div(ino.blocks, Sectors(sb)), Sectors(sb));
    Div(ino.blocks, Sectors(sb))
  }

  /**
   * `after_block`: `(size + block_size - 1) / block_size` in unsigned 32-bit
   * arithmetic; where the sum does not wrap, the intended count.
   */
  function AfterBlocks(sb: SuperBlock, size: u32): (r: nat)
    ensures size + BlockBytes(Log(sb)) - 1 < U32_MOD ==> r == CeilBlocks(sb, size)
  {
    var bs := BlockBytes(Log(sb));
    Div((size + bs - 1) % U32_MOD, bs)
  }

  /** `ceil(size / block_size)`, the count the source means to compute. */
  function CeilBlocks(sb: SuperBlock, size: u32): (r: nat)
    ensures r == 0 <==> size == 0
  {
    var bs := BlockBytes(Log(sb));
    Div(size + bs - 1, bs)
  }

  /** The block count resize works towards: as the source computes it, or the intended one. */
  function NeededBlocks(v: Variant, sb: SuperBlock, size: u32): (r: nat)
    ensures size + BlockBytes(Log(sb)) - 1 < U32_MOD ==> r == CeilBlocks(sb, size)
  {
    match v
    case AsWritten => AfterBlocks(sb, size)
    case Corrected => CeilBlocks(sb, size)
  }

  /** CeilBlocks is the least number of blocks that hold size bytes. */
  lemma CeilBlocksLeast(sb: SuperBlock, size: u32)
    ensures Mul(CeilBlocks(sb, size), BlockBytes(Log(sb))) >= size
    ensures CeilBlocks(sb, size) > 0 ==> Mul(CeilBlocks(sb, size) - 1, BlockBytes(Log(sb))) < size
  {
    var bs := BlockBytes(Log(sb));
    var c := CeilBlocks(sb, size);
    DivMod(size + bs - 1, bs);
    if c > 0 {
      MulSucc(c - 1, bs);
    }
  }

  /**
   * Where it wraps, the source's count is 0: resizing to within a block of
   * 4 GiB frees every block of the file, though the new size needs at least
   * one.
   */
  lemma AfterBlocksWraps(sb: SuperBlock, size: u32)
    requires BlockBytes(Log(sb)) <= BLOCK_SIZE * BLOCK_NUM && size + BlockBytes(Log(sb)) - 1 >= U32_MOD
    ensures AfterBlocks(sb, size) == 0 && CeilBlocks(sb, size) > 0
  {
    var bs := BlockBytes(Log(sb));
    assert (size + bs - 1) % U32_MOD == size + bs - 1 - U32_MOD;
    assert Div(size + bs - 1, bs) == Div(size - 1, bs) + 1;
  }

  /** A block is 512 sectors' worth of bytes, so a count of blocks scales likewise. */
  lemma {:induction false} MulSectorBytes(a: nat, b: nat)
    ensures Mul(a, 512 * b) == 512 * Mul(a, b)
  {
    if a > 0 {
      MulSectorBytes(a - 1, b);
    }
  }

  /** The sector count resize stores fits in `i_blocks` for blocks up to the device's size. */
  lemma SectorsFit(v: Variant, sb: SuperBlock, size: u32)
    requires BlockBytes(Log(sb)) <= BLOCK_SIZE * BLOCK_NUM
    ensures Mul(NeededBlocks(v, sb, size), Sectors(sb)) < U32_MOD
  {
    var bs := BlockBytes(Log(sb));
    var n := if v.AsWritten? then (size + bs - 1) % U32_MOD else size + bs - 1;
    DivMod(n, bs);
    assert bs == 512 * Sectors(sb);
    MulSectorBytes(NeededBlocks(v, sb, size), Sectors(sb));
  }

  /** The inode resize writes: the new size and `after_block * (2 << log)`. */
  function Resized(v: Variant, sb: SuperBlock, ino: Inode, size: u32): (r: Inode)
    requires BlockBytes(Log(sb)) <= BLOCK_SIZE * BLOCK_NUM
    ensures r.size == size && r.blocks == Mul(NeededBlocks(v, sb, size), Sectors(sb))
    ensures r.block == ino.block
  {
    SectorsFit(v, sb, size);
    ino.(size := size, blocks := Mul(NeededBlocks(v, sb, size), Sectors(sb)))
  }

  // ---------------------------------------------------------------------
  // Shrinking
  // ---------------------------------------------------------------------

  /** The inode with pointer slot s zeroed, `inode.i_block_[s] = 0`. */
  function ClearSlot(ino: Inode, s: nat): (r: Inode)
    requires s < N_BLOCK_PTRS
    ensures r.block[s] == 0 && forall t | 0 <= t < N_BLOCK_PTRS && t != s :: r.block[t] == ino.block[t]
  {
    ino.(block := ino.block[s := 0])
  }

  /**
   * The direct-slot loop from i to stop: each slot must be non-zero and
   * taggable; its block is marked free and the slot zeroed.
   */
  function FreeDirect(fs: Image, sb: SuperBlock, bgd: seq<GroupDesc>, ino: Inode, i: nat, stop: nat): (r: Option<(Inode, Image)>)
    requires Geometry(sb, bgd) && Shaped(fs, Log(sb)) && stop <= NDIRECT_BLOCK
    ensures r.Some? ==> Shaped(r.value.1, Log(sb))
    decreases stop - i
  {
    if i >= stop then Some((ino, fs))
    else
      var b := ino.block[i];
      if b == 0 || !Taggable(sb, bgd, b) then None
      else FreeDirect(Tag(fs, sb, bgd, b, false), sb, bgd, ClearSlot(ino, i), i + 1, stop)
  }

  /**
   * One indirect level: when the file used blocks past base, the subtree under
   * `i_block[slot]` is freed from after - base (or 0) to min(used - base, cap),
   * and the slot is zeroed when its block was released.
   */
  function FreeLevel(v: Variant, fs: Image, sb: SuperBlock, bgd: seq<GroupDesc>, ino: Inode, slot: nat, level: nat,
                     base: nat, cap: nat, used: nat, after: nat): (r: Option<(Inode, Image)>)
    requires Geometry(sb, bgd) && Shaped(fs, Log(sb)) && slot < N_BLOCK_PTRS && level >= 1
    ensures r.Some? ==> Shaped(r.value.1, Log(sb))
  {
    if used <= base then Some((ino, fs))
    else
      var start := if after > base then after - base else 0;
      var end := Min(used - base, cap);
      match FreeIndirect(v, fs, sb, bgd, ino.block[slot], level, start, end)
      case None => None
      case Some((freed, fs1)) => Some((if freed then ClearSlot(ino, slot) else ino, fs1))
  }

  /** The shrink branch: direct slots, then the three indirect levels in order. */
  function Shrink(v: Variant, fs: Image, sb: SuperBlock, bgd: seq<GroupDesc>, ino: Inode, used: nat, after: nat): (r: Option<(Inode, Image)>)
    requires Geometry(sb, bgd) && Shaped(fs, Log(sb))
    ensures r.Some? ==> Shaped(r.value.1, Log(sb))
  {
    match FreeDirect(fs, sb, bgd, ino, after, Min(used, NDIRECT_BLOCK))
    case None => None
    case Some((ino1, fs1)) => FreeLevels(v, fs1, sb, bgd, ino1, used, after)
  }

  /** The single-, double- and triple-indirect levels of the shrink, in order. */
  function FreeLevels(v: Variant, fs: Image, sb: SuperBlock, bgd: seq<GroupDesc>, ino: Inode, used: nat, after: nat): (r: Option<(Inode, Image)>)
    requires Geometry(sb, bgd) && Shaped(fs, Log(sb))
    ensures r.Some? ==> Shaped(r.value.1, Log(sb))
  {
    var e := Entries(sb);
    match FreeLevel(v, fs, sb, bgd, ino, SINGLE_SLOT, 1, NDIRECT_BLOCK, N1INDIRECT_BLOCK * e, used, after)
    case None => None
    case Some((ino1, fs1)) =>
      match FreeLevel(v, fs1, sb, bgd, ino1, DOUBLE_SLOT, 2, DoubleStart(e), N2INDIRECT_BLOCK * Mul(e, e), used, after)
      case None => None
      case Some((ino2, fs2)) =>
        FreeLevel(v, fs2, sb, bgd, ino2, TRIPLE_SLOT, 3, TripleStart(e), N3INDIRECT_BLOCK * Mul(Mul(e, e), e), used, after)
  }

  // ---------------------------------------------------------------------
  // Growing
  // ---------------------------------------------------------------------

  /** The grow loop: `allocate_data(inode, i)` for i from i up to after. */
  function Grow(fs: Image, sb: SuperBlock, bgd: seq<GroupDesc>, ino: Inode, i: nat, after: nat): (r: Option<(Inode, Image)>)
    requires Geometry(sb, bgd) && Shaped(fs, Log(sb))
    ensures r.Some? ==> Shaped(r.value.1, Log(sb))
    decreases after - i
  {
    if i >= after then Some((ino, fs))
    else
      match AllocateData(fs, sb, bgd, ino, i)
      case None => None
      case Some((ino1, fs1)) => Grow(fs1, sb, bgd, ino1, i + 1, after)
  }

  // ---------------------------------------------------------------------
  // resize
  // ---------------------------------------------------------------------

  /** `resize(iid, size)`: the image afterwards, None where the source aborts. */
  function Resize(v: Variant, fs: Image, sb: SuperBlock, bgd: seq<GroupDesc>, iid: nat, size: u32): (r: Option<Image>)
    requires Geometry(sb, bgd) && Shaped(fs, Log(sb)) && ValidIid(sb, bgd, iid)
    ensures r.Some? ==> Shaped(r.value, Log(sb))
  {
    var ino := ReadInode(fs, sb, bgd, iid);
    var used := UsedBlocks(sb, ino);
    var after := NeededBlocks(v, sb, size);
    LogBound(sb, bgd);
    if used == after then Some(WriteInode(fs, sb, bgd, iid, ino.(size := size)))
    else
      var r := if used > after then Shrink(v, fs, sb, bgd, ino, used, after) else Grow(fs, sb, bgd, ino, used, after);
      match r
      case None => None
      case Some((ino', fs')) => Some(WriteInode(fs', sb, bgd, iid, Resized(v, sb, ino', size)))
  }

  // ---------------------------------------------------------------------
  // What resize promises
  // ---------------------------------------------------------------------

  /**
   * After a successful resize the inode records the new size; when the block
   * count changes it also records `after_block * (2 << log)` sectors, and when
   * it does not only the size changed.
   */
  lemma ResizeRecords(v: Variant, fs: Image, sb: SuperBlock, bgd: seq<GroupDesc>, iid: nat, size: u32)
    requires Geometry(sb, bgd) && Shaped(fs, Log(sb)) && ValidIid(sb, bgd, iid)
    requires Resize(v, fs, sb, bgd, iid, size).Some?
    ensures var ino := ReadInode(fs, sb, bgd, iid);
      var ino' := ReadInode(Resize(v, fs, sb, bgd, iid, size).value, sb, bgd, iid);
      && ino'.size == size
      && UsedBlocks(sb, ino') == NeededBlocks(v, sb, size)
      && (UsedBlocks(sb, ino) == NeededBlocks(v, sb, size) ==> ino' == ino.(size := size))
      && (UsedBlocks(sb, ino) != NeededBlocks(v, sb, size) ==> ino'.blocks == Mul(NeededBlocks(v, sb, size), Sectors(sb)))
  {
    var ino := ReadInode(fs, sb, bgd, iid);
    var used := UsedBlocks(sb, ino);
    var after := NeededBlocks(v, sb, size);
    LogBound(sb, bgd);
    if used == after {
      ReadWriteInode(fs, sb, bgd, iid, ino.(size := size), iid);
    } else {
      var r := if used > after then Shrink(v, fs, sb, bgd, ino, used, after) else Grow(fs, sb, bgd, ino, used, after);
      var (ino1, fs1) := r.value;
      ReadWriteInode(fs1, sb, bgd, iid, Resized(v, sb, ino1, size), iid);
      DivModUnique(Mul(after, Sectors(sb)), Sectors(sb), after, 0);
    }
  }

  /** Resizing a file a second time to the same size changes nothing. */
  lemma ResizeIdempotent(v: Variant, fs: Image, sb: SuperBlock, bgd: seq<GroupDesc>, iid: nat, size: u32)
    requires Geometry(sb, bgd) && Shaped(fs, Log(sb)) && ValidIid(sb, bgd, iid)
    requires Resize(v, fs, sb, bgd, iid, size).Some?
    ensures var fs' := Resize(v, fs, sb, bgd, iid, size).value;
      Resize(v, fs', sb, bgd, iid, size) == Some(fs')
  {
    var fs' := Resize(v, fs, sb, bgd, iid, size).value;
    ResizeRecords(v, fs, sb, bgd, iid, size);
    var ino' := ReadInode(fs', sb, bgd, iid);
    assert ino'.(size := size) == ino';
    WriteInodeSame(fs', sb, bgd, iid);
  }

  // ---------------------------------------------------------------------
  // What shrinking frees
  // ---------------------------------------------------------------------

  /** The direct-slot loop succeeds exactly when each slot it visits is non-zero and taggable. */
  lemma {:induction false} FreeDirectSome(fs: Image, sb: SuperBlock, bgd: seq<GroupDesc>, ino: Inode, i: nat, stop: nat)
    requires Geometry(sb, bgd) && Shaped(fs, Log(sb)) && stop <= NDIRECT_BLOCK
    ensures FreeDirect(fs, sb, bgd, ino, i, stop).Some? <==>
      forall k | i <= k < stop :: ino.block[k] != 0 && Taggable(sb, bgd, ino.block[k])
    decreases stop - i
  {
    if i < stop {
      var b := ino.block[i];
      if b != 0 && Taggable(sb, bgd, b) {
        var ino1 := ClearSlot(ino, i);
        FreeDirectSome(Tag(fs, sb, bgd, b, false), sb, bgd, ino1, i + 1, stop);
        assert forall k | i + 1 <= k < stop :: ino1.block[k] == ino.block[k];
      }
    }
  }

  /** The loop zeroes slots [i, stop) and leaves the others. */
  lemma {:induction false} FreeDirectSlots(fs: Image, sb: SuperBlock, bgd: seq<GroupDesc>, ino: Inode, i: nat, stop: nat)
    requires Geometry(sb, bgd) && Shaped(fs, Log(sb)) && stop <= NDIRECT_BLOCK
    requires FreeDirect(fs, sb, bgd, ino, i, stop).Some?
    ensures var ino' := FreeDirect(fs, sb, bgd, ino, i, stop).value.0;
      forall k | 0 <= k < N_BLOCK_PTRS :: ino'.block[k] == if i <= k < stop then 0 else ino.block[k]
    decreases stop - i
  {
    if i < stop {
      var b := ino.block[i];
      FreeDirectSlots(Tag(fs, sb, bgd, b, false), sb, bgd, ClearSlot(ino, i), i + 1, stop);
    }
  }

  lemma SlotsStep(ptrs: BlockPtrs, i: nat, stop: nat)
    requires i < stop <= N_BLOCK_PTRS
    ensures ptrs[i..stop] == [ptrs[i]] + ptrs[i := 0][i + 1..stop]
  {
    assert ptrs[i := 0][i + 1..stop] == ptrs[i + 1..stop];
  }

  /** The loop marks the blocks the slots named free and leaves every other block's state. */
  lemma {:induction false} FreeDirectState(fs: Image, sb: SuperBlock, bgd: seq<GroupDesc>, ino: Inode, i: nat, stop: nat, c: u32)
    requires Geometry(sb, bgd) && Shaped(fs, Log(sb)) && DistinctBitmaps(bgd) && stop <= NDIRECT_BLOCK
    requires FreeDirect(fs, sb, bgd, ino, i, stop).Some? && Taggable(sb, bgd, c) && i <= stop
    ensures BlockState(FreeDirect(fs, sb, bgd, ino, i, stop).value.1, sb, bgd, c)
      == (c !in ino.block[i..stop] && BlockState(fs, sb, bgd, c))
    decreases stop - i
  {
    if i < stop {
      var b := ino.block[i];
      var ino1 := ClearSlot(ino, i);
      FreeDirectState(Tag(fs, sb, bgd, b, false), sb, bgd, ino1, i + 1, stop, c);
      TagThenState(fs, sb, bgd, b, false, c);
      SlotsStep(ino.block, i, stop);
    }
  }

  /**
   * With the corrected release test, one indirect level zeroes its slot
   * exactly when the file used blocks past base and the new end is at or
   * before base; no other slot changes.
   */
  lemma FreeLevelSlot(fs: Image, sb: SuperBlock, bgd: seq<GroupDesc>, ino: Inode, slot: nat, level: nat,
                      base: nat, cap: nat, used: nat, after: nat)
    requires Geometry(sb, bgd) && Shaped(fs, Log(sb)) && slot < N_BLOCK_PTRS && level >= 1
    requires FreeLevel(Corrected, fs, sb, bgd, ino, slot, level, base, cap, used, after).Some?
    ensures var ino' := FreeLevel(Corrected, fs, sb, bgd, ino, slot, level, base, cap, used, after).value.0;
      && ino'.block[slot] == (if used > base && after <= base then 0 else ino.block[slot])
      && forall k | 0 <= k < N_BLOCK_PTRS && k != slot :: ino'.block[k] == ino.block[k]
  {
  }

  /**
   * With the corrected release test, the indirect levels leave each indirect
   * slot zero exactly when its whole range lies past the new end, and the
   * direct slots as they were.
   */
  lemma FreeLevelsSlots(fs: Image, sb: SuperBlock, bgd: seq<GroupDesc>, ino: Inode, used: nat, after: nat)
    requires Geometry(sb, bgd) && Shaped(fs, Log(sb))
    requires FreeLevels(Corrected, fs, sb, bgd, ino, used, after).Some?
    ensures var ino' := FreeLevels(Corrected, fs, sb, bgd, ino, used, after).value.0;
      var e := Entries(sb);
      && (forall k | 0 <= k < NDIRECT_BLOCK :: ino'.block[k] == ino.block[k])
      && ino'.block[SINGLE_SLOT] == (if used > NDIRECT_BLOCK && after <= NDIRECT_BLOCK then 0 else ino.block[SINGLE_SLOT])
      && ino'.block[DOUBLE_SLOT] == (if used > DoubleStart(e) && after <= DoubleStart(e) then 0 else ino.block[DOUBLE_SLOT])
      && ino'.block[TRIPLE_SLOT] == (if used > TripleStart(e) && after <= TripleStart(e) then 0 else ino.block[TRIPLE_SLOT])
  {
    var e := Entries(sb);
    var c1, c2, c3 := N1INDIRECT_BLOCK * e, N2INDIRECT_BLOCK * Mul(e, e), N3INDIRECT_BLOCK * Mul(Mul(e, e), e);
    FreeLevelSlot(fs, sb, bgd, ino, SINGLE_SLOT, 1, NDIRECT_BLOCK, c1, used, after);
    var (ino1, fs1) := FreeLevel(Corrected, fs, sb, bgd, ino, SINGLE_SLOT, 1, NDIRECT_BLOCK, c1, used, after).value;
    FreeLevelSlot(fs1, sb, bgd, ino1, DOUBLE_SLOT, 2, DoubleStart(e), c2, used, after);
    var (ino2, fs2) := FreeLevel(Corrected, fs1, sb, bgd, ino1, DOUBLE_SLOT, 2, DoubleStart(e), c2, used, after).value;
    FreeLevelSlot(fs2, sb, bgd, ino2, TRIPLE_SLOT, 3, TripleStart(e), c3, used, after);
  }

  /**
   * A successful shrink with the corrected release test leaves direct slot k
   * zero for after <= k < min(used, 12) and each indirect slot zero exactly
   * when its whole range lies past the new end; every other slot keeps its
   * pointer.
   */
  lemma ShrinkSlots(fs: Image, sb: SuperBlock, bgd: seq<GroupDesc>, ino: Inode, used: nat, after: nat)
    requires Geometry(sb, bgd) && Shaped(fs, Log(sb))
    requires Shrink(Corrected, fs, sb, bgd, ino, used, after).Some?
    ensures var ino' := Shrink(Corrected, fs, sb, bgd, ino, used, after).value.0;
      var e := Entries(sb);
      && (forall k | 0 <= k < NDIRECT_BLOCK :: ino'.block[k] == if after <= k < Min(used, NDIRECT_BLOCK) then 0 else ino.block[k])
      && ino'.block[SINGLE_SLOT] == (if used > NDIRECT_BLOCK && after <= NDIRECT_BLOCK then 0 else ino.block[SINGLE_SLOT])
      && ino'.block[DOUBLE_SLOT] == (if used > DoubleStart(e) && after <= DoubleStart(e) then 0 else ino.block[DOUBLE_SLOT])
      && ino'.block[TRIPLE_SLOT] == (if used > TripleStart(e) && after <= TripleStart(e) then 0 else ino.block[TRIPLE_SLOT])
  {
    var stop := Min(used, NDIRECT_BLOCK);
    FreeDirectSlots(fs, sb, bgd, ino, after, stop);
    var (ino1, fs1) := FreeDirect(fs, sb, bgd, ino, after, stop).value;
    FreeLevelsSlots(fs1, sb, bgd, ino1, used, after);
  }

  // ---------------------------------------------------------------------
  // What growing allocates
  // ---------------------------------------------------------------------

  /** A direct index resolves to its slot's pointer when that pointer is usable. */
  lemma DirectResolve(fs: Image, sb: SuperBlock, bgd: seq<GroupDesc>, ino: Inode, k: nat)
    requires Geometry(sb, bgd) && Shaped(fs, Log(sb)) && k < NDIRECT_BLOCK
    ensures Resolve(fs, sb, bgd, ino, k) == if Usable(fs, sb, bgd, ino.block[k]) then Some(ino.block[k]) else None
  {
  }

  /**
   * `allocate_data` of a direct index, on an image whose reserved blocks are
   * marked: the slot is pointed at a block now usable, no other slot changes,
   * the reserved blocks stay reserved and nothing is freed.
   */
  lemma AllocateDirectSlot(fs: Image, sb: SuperBlock, bgd: seq<GroupDesc>, ino: Inode, i: nat)
    requires Geometry(sb, bgd) && Shaped(fs, Log(sb)) && Reserved(fs, sb, bgd) && i < NDIRECT_BLOCK
    requires AllocateData(fs, sb, bgd, ino, i).Some?
    ensures var (ino1, fs1) := AllocateData(fs, sb, bgd, ino, i).value;
      && Usable(fs1, sb, bgd, ino1.block[i])
      && (forall k | 0 <= k < N_BLOCK_PTRS && k != i :: ino1.block[k] == ino.block[k])
      && Reserved(fs1, sb, bgd) && Grows(fs, fs1, sb, bgd)
  {
    assert Locate(i, Entries(sb)) == Direct(i);
    IdleFacts(fs, sb, bgd);
  }

  /** A usable slot that no later step changes stays usable. */
  lemma GrowStep(fs1: Image, fs': Image, sb: SuperBlock, bgd: seq<GroupDesc>, ino1: Inode, ino': Inode, i: nat)
    requires Geometry(sb, bgd) && Shaped(fs1, Log(sb)) && Shaped(fs', Log(sb)) && i < NDIRECT_BLOCK
    requires Usable(fs1, sb, bgd, ino1.block[i]) && Grows(fs1, fs', sb, bgd) && ino'.block[i] == ino1.block[i]
    ensures Resolve(fs', sb, bgd, ino', i).Some?
  {
    DirectResolve(fs', sb, bgd, ino', i);
  }

  /**
   * Growing within the direct slots: on an image whose reserved blocks are
   * marked, a successful grow from i to after leaves every index in [i, after)
   * resolving to a block that is allocated, changes no other slot, keeps the
   * reserved blocks reserved and frees nothing.
   */
  lemma {:induction false} GrowDirect(fs: Image, sb: SuperBlock, bgd: seq<GroupDesc>, ino: Inode, i: nat, after: nat)
    requires Geometry(sb, bgd) && Shaped(fs, Log(sb)) && Reserved(fs, sb, bgd) && after <= NDIRECT_BLOCK
    requires Grow(fs, sb, bgd, ino, i, after).Some?
    ensures var (ino', fs') := Grow(fs, sb, bgd, ino, i, after).value;
      && (forall k | i <= k < after :: Resolve(fs', sb, bgd, ino', k).Some?)
      && (forall k | 0 <= k < N_BLOCK_PTRS && !(i <= k < after) :: ino'.block[k] == ino.block[k])
      && Reserved(fs', sb, bgd) && Grows(fs, fs', sb, bgd)
    decreases after - i
  {
    if i < after {
      AllocateDirectSlot(fs, sb, bgd, ino, i);
      var (ino1, fs1) := AllocateData(fs, sb, bgd, ino, i).value;
      GrowDirect(fs1, sb, bgd, ino1, i + 1, after);
      var (ino', fs') := Grow(fs1, sb, bgd, ino1, i + 1, after).value;
      GrowsTrans(fs, fs1, fs', sb, bgd);
      GrowStep(fs1, fs', sb, bgd, ino1, ino', i);
    }
  }
}
