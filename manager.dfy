// The inode manager as the source has it: an object over the block manager
// whose methods read and write the device through it. Each method is proved
// against the functional model of the same operation.

module InodeManagement {
  import opened Bytes
  import opened Ext2
  import opened Scan
  import opened Arith
  import opened Blocks
  import opened Inodes
  import opened Addressing
  import opened Streams
  import opened Directories
  import opened Freeing
  import Resizing
  import Allocation

  /** `o` with `a` in front of its bytes. */
  function Prepend(a: seq<byte>, o: Option<seq<byte>>): Option<seq<byte>>
  {
    match o
    case None => None
    case Some(x) => Some(a + x)
  }

  lemma PrependEmpty(o: Option<seq<byte>>)
    ensures Prepend([], o) == o
  {
    if o.Some? {
      assert [] + o.value == o.value;
    }
  }

  lemma PrependTwice(a: seq<byte>, b: seq<byte>, o: Option<seq<byte>>)
    ensures Prepend(a, Prepend(b, o)) == Prepend(a + b, o)
  {
    if o.Some? {
      assert a + (b + o.value) == (a + b) + o.value;
    }
  }

  /** A read whose first chunk, c bytes long, reads d is d in front of the read of the rest. */
  lemma ReadStreamOn(rd: Reader, bs: nat, off: nat, n: nat, c: nat, d: seq<byte>)
    requires bs > 0 && n > 0 && c == ChunkLen(bs, off, n) && rd(off)(c) == Some(d)
    ensures ReadStream(rd, bs, off, n) == Prepend(d, ReadStream(rd, bs, off + c, n - c))
  {
  }

  /** A read whose first chunk aborts aborts. */
  lemma ReadStreamOff(rd: Reader, bs: nat, off: nat, n: nat, c: nat)
    requires bs > 0 && n > 0 && c == ChunkLen(bs, off, n) && rd(off)(c).None?
    ensures ReadStream(rd, bs, off, n).None?
  {
  }

  /**
   * One turn of the read loop of `read_inode_data`: with acc read so far and
   * the chunk at off + readed reading d, acc + d is read and the loop goes on
   * after the chunk.
   */
  lemma ReadAdvance(rd: Reader, bs: nat, off: nat, size: nat, readed: nat, n: nat, acc: seq<byte>, d: seq<byte>)
    requires bs > 0 && readed < size && n == ChunkLen(bs, off + readed, size - readed)
    requires rd(off + readed)(n) == Some(d)
    requires ReadStream(rd, bs, off, size) == Prepend(acc, ReadStream(rd, bs, off + readed, size - readed))
    ensures ReadStream(rd, bs, off, size) == Prepend(acc + d, ReadStream(rd, bs, off + (readed + n), size - (readed + n)))
  {
    ReadStreamOn(rd, bs, off + readed, size - readed, n, d);
    PrependTwice(acc, d, ReadStream(rd, bs, off + readed + n, size - readed - n));
    assert off + (readed + n) == off + readed + n && size - (readed + n) == size - readed - n;
  }

  /**
   * The chunk length of both loops, computed as the source does: up to
   * `next_boundary`, the first multiple of bs above cur, or to the end.
   */
  method ChunkSize(bs: nat, cur: nat, remaining: nat) returns (n: nat)
    requires bs > 0
    ensures n == ChunkLen(bs, cur, remaining)
  {
    NextBoundary(cur, bs);
    ChunkLenBoundary(bs, cur, remaining);
    var nextBoundary := Mul(Div(cur + bs, bs), bs);
    n := Min(remaining, nextBoundary - cur);
  }

  class InodeManager {
    const sbm: SuperBlockManager
    const bm: BlockManager

    constructor (s: SuperBlockManager, b: BlockManager)
      ensures sbm == s && bm == b
    {
      sbm := s;
      bm := b;
    }

    /** Both managers share the superblock cache, and the descriptors describe the filesystem. */
    predicate Valid()
      reads this, bm, bm.disk, sbm
    {
      bm.sbm == sbm && bm.Ready()
    }

    /** The filesystem image the managers see. */
    function Fs(): (fs: Image)
      reads this, bm, bm.disk, sbm
      requires Valid()
      ensures Shaped(fs, Log(sbm.sb))
    {
      bm.Fs()
    }

    // -------------------------------------------------------------------
    // Inode records and the inode bitmaps
    // -------------------------------------------------------------------

    /** `read_inode(iid)`: the record in the inode's slot of its table block. */
    method ReadInode(iid: u32) returns (ino: Inode)
      requires Valid() && ValidIid(sbm.sb, bm.bgd, iid)
      ensures ino == Inodes.ReadInode(Fs(), sbm.sb, bm.bgd, iid)
    {
      var sb := sbm.sb;
      InodeLocation(sb, bm.bgd, iid);
      var group := Div(iid as nat - 1, sb.inodesPerGroup);
      var local := Mod(iid as nat - 1, sb.inodesPerGroup);
      var perBlock := InodesPerBlock(sb);
      var table := bm.bgd[group].inodeTable + Div(local, perBlock);
      var slot := Mod(local, perBlock);
      assert table == InodeBlock(sb, bm.bgd, iid) && slot == InodeSlot(sb, bm.bgd, iid);
      var blk := bm.ReadBlock(table);
      ino := DecodeInode(blk[INODE_BYTES * slot..]);
    }

    /** `write_inode(in, iid)`: overwrites the inode's slot and writes the table block back. */
    method WriteInode(ino: Inode, iid: u32) returns (ok: bool)
      requires Valid() && ValidIid(sbm.sb, bm.bgd, iid)
      modifies bm.disk
      ensures Valid() && ok
      ensures Fs() == Inodes.WriteInode(old(Fs()), sbm.sb, bm.bgd, iid, ino)
    {
      var sb := sbm.sb;
      InodeLocation(sb, bm.bgd, iid);
      var group := Div(iid as nat - 1, sb.inodesPerGroup);
      var local := Mod(iid as nat - 1, sb.inodesPerGroup);
      var perBlock := InodesPerBlock(sb);
      var table := bm.bgd[group].inodeTable + Div(local, perBlock);
      var slot := Mod(local, perBlock);
      assert table == InodeBlock(sb, bm.bgd, iid) && slot == InodeSlot(sb, bm.bgd, iid);
      var blk := bm.ReadBlock(table);
      bm.WriteBlock(Splice(blk, INODE_BYTES * slot, EncodeInode(ino)), table);
      ok := true;
    }

    /**
     * `getIdleInode`: scans every group's inode bitmap for its first clear
     * bit among the inodes of the group, sets it and reports the inode
     * number `group * ipg + i + 1`; None when every bit is set.
     */
    method GetIdleInode() returns (r: Option<u32>)
      requires Valid()
      modifies bm.disk
      ensures Valid()
      ensures (r, Fs()) == IdleInode(old(Fs()), sbm.sb, bm.bgd)
    {
      var sb, bgd := sbm.sb, bm.bgd;
      ghost var fs := Fs();
      ghost var maps, lims := InodeScanMaps(fs, sb, bgd), InodeScanLimits(sb, |bgd|);
      InodeScanShape(fs, sb, bgd);
      var group: nat := 0;
      while group < |bgd|
        invariant 0 <= group <= |bgd| && Valid() && Fs() == fs
        invariant FirstIdleInode(fs, sb, bgd) == FirstClear(maps, lims, group, 0)
      {
        var bitmapBid := bgd[group].inodeBitmap;
        var bitmap := bm.ReadBlock(bitmapBid);
        assert bitmap == maps[group];
        var found := FirstClearBit(bitmap, sb.inodesPerGroup);
        if found.Some? {
          var i := found.value;
          FirstClearSkips(maps, lims, group, 0, i);
          assert FirstIdleInode(fs, sb, bgd) == Some((group, i));
          bm.WriteBlock(SetBitAt(bitmap, i, true), bitmapBid);
          return Some(InodeNumber(sb, group, i));
        }
        FirstClearSkips(maps, lims, group, 0, sb.inodesPerGroup);
        assert FirstClear(maps, lims, group, sb.inodesPerGroup) == FirstClear(maps, lims, group + 1, 0);
        group := group + 1;
      }
      return None;
    }

    /**
     * `new_inode(in)`: allocates an inode and stores the record in its slot;
     * None where no inode is free and the source's assertion aborts.
     */
    method NewInode(ino: Inode) returns (r: Option<u32>)
      requires Valid() && InodeCountFits(sbm.sb, bm.bgd)
      modifies bm.disk
      ensures Valid()
      ensures (r, Fs()) == Inodes.NewInode(old(Fs()), sbm.sb, bm.bgd, ino)
    {
      IdleInodeValid(Fs(), sbm.sb, bm.bgd);
      r := GetIdleInode();
      if r.Some? {
        var _ := WriteInode(ino, r.value);
      }
    }

    /**
     * `del_inode(iid)`: clears the inode's bit; false, with nothing written,
     * where the bit is already clear and the source's assertion aborts.
     */
    method DelInode(iid: u32) returns (ok: bool)
      requires Valid() && ValidIid(sbm.sb, bm.bgd, iid)
      modifies bm.disk
      ensures Valid()
      ensures ok == Inodes.DelInode(old(Fs()), sbm.sb, bm.bgd, iid).Some?
      ensures Fs() == if ok then Inodes.DelInode(old(Fs()), sbm.sb, bm.bgd, iid).value else old(Fs())
    {
      var sb := sbm.sb;
      var group := Div(iid as nat - 1, sb.inodesPerGroup);
      var local := Mod(iid as nat - 1, sb.inodesPerGroup);
      assert group == InodeGroup(sb, iid) && local == InodeIndex(sb, iid);
      var bitmapBid := bm.bgd[group].inodeBitmap;
      var bitmap := bm.ReadBlock(bitmapBid);
      if !BitAt(bitmap, local) {
        return false;
      }
      bm.WriteBlock(SetBitAt(bitmap, local, false), bitmapBid);
      ok := true;
    }

    // -------------------------------------------------------------------
    // The data helpers
    // -------------------------------------------------------------------

    /** The helpers' two assertions on a pointer: non-zero and marked allocated. */
    method CheckPointer(p: u32) returns (ok: bool)
      requires Valid()
      ensures ok == Usable(Fs(), sbm.sb, bm.bgd, p)
    {
      ok := p != 0 && Taggable(sbm.sb, bm.bgd, p);
      if ok {
        ok := bm.State(p);
      }
    }

    /** Follows path from pointer p through indirect blocks, checking every pointer on the way. */
    method WalkPointers(p: u32, path: seq<nat>) returns (r: Option<u32>)
      requires Valid() && PathInBlock(sbm.sb, path)
      ensures r == Walk(Fs(), sbm.sb, bm.bgd, p, path)
    {
      var sb, bgd := sbm.sb, bm.bgd;
      var cur, rest := p, path;
      while rest != []
        invariant PathInBlock(sb, rest)
        invariant Walk(Fs(), sb, bgd, p, path) == Walk(Fs(), sb, bgd, cur, rest)
        decreases |rest|
      {
        var ok := CheckPointer(cur);
        if !ok {
          return None;
        }
        EntryInBlock(sb, rest[0]);
        var blk := bm.ReadBlock(cur as nat);
        cur, rest := WordAt(blk, rest[0]), rest[1..];
      }
      var ok := CheckPointer(cur);
      r := if ok then Some(cur) else None;
    }

    /**
     * The pointer cascade both helpers share: the direct slot, or the
     * indirect slot and the indices within each level for logical block bid.
     */
    method ResolveBlock(ino: Inode, bid: nat) returns (r: Option<u32>)
      requires Valid()
      ensures r == Resolve(Fs(), sbm.sb, bm.bgd, ino, bid)
    {
      var l := Locate(bid, Entries(sbm.sb));
      if l.Beyond? {
        return None;
      }
      LocateIndex(bid, Entries(sbm.sb));
      PathFits(l, Entries(sbm.sb));
      r := WalkPointers(ino.block[Slot(l)], PathOf(l));
    }

    /**
     * rd reads as the helper reads file ino: the link is used only where the
     * helper's own read of a chunk is named, so the loops see rd abstractly.
     */
    ghost predicate ReadsDisk(rd: Reader, ino: Inode)
      reads this, bm, bm.disk, sbm
    {
      && Valid()
      && forall o: nat, n: nat {:trigger DiskReader(Fs(), sbm.sb, bm.bgd, ino)(o)(n)} ::
           rd(o)(n) == DiskReader(Fs(), sbm.sb, bm.bgd, ino)(o)(n)
    }

    /** wr writes as the helper writes file ino, in every image. */
    ghost predicate WritesDisk(wr: Writer, ino: Inode)
      reads this, bm, sbm
    {
      forall fs: Image, o: nat, data: seq<byte> {:trigger ChunkWriter(Resolution(sbm.sb, bm.bgd, ino), BlockBytes(Log(sbm.sb)))(fs)(o)(data)} ::
        wr(fs)(o)(data) == ChunkWriter(Resolution(sbm.sb, bm.bgd, ino), BlockBytes(Log(sbm.sb)))(fs)(o)(data)
    }

    /**
     * `read_inode_data_helper(in, dst, off, size)`: the size bytes at off of
     * the file, which must lie in one block; None where an assertion aborts.
     */
    method ReadHelper(ghost rd: Reader, ino: Inode, off: nat, size: nat) returns (r: Option<seq<byte>>)
      requires Valid() && ReadsDisk(rd, ino)
      ensures r == rd(off)(size)
    {
      var bs := BlockBytes(Log(sbm.sb));
      r := None;
      if InOneBlock(bs, off, size) {
        var b := ResolveBlock(ino, BlockOf(bs, off));
        ResolutionIs(Fs(), sbm.sb, bm.bgd, ino, BlockOf(bs, off));
        if b.Some? {
          var blk := bm.ReadBlock(b.value as nat);
          var lo := InBlock(bs, off);
          r := Some(blk[lo..lo + size]);
        }
      }
      assert r == DiskReader(Fs(), sbm.sb, bm.bgd, ino)(off)(size);
    }

    /**
     * `write_inode_data_helper(in, src, off, |data|)`: copies data over the
     * file at off, inside one block; false, with nothing written, where an
     * assertion aborts.
     */
    method WriteHelper(ghost wr: Writer, ino: Inode, off: nat, data: seq<byte>) returns (ok: bool)
      requires Valid() && WritesDisk(wr, ino)
      modifies bm.disk
      ensures Valid() && WritesDisk(wr, ino)
      ensures var w := wr(old(Fs()))(off)(data);
        ok == w.Some? && Fs() == if ok then w.value else old(Fs())
    {
      var bs := BlockBytes(Log(sbm.sb));
      DiskChunkWrite(Fs(), sbm.sb, bm.bgd, ino, off, data);
      ok := false;
      if InOneBlock(bs, off, |data|) {
        var b := ResolveBlock(ino, BlockOf(bs, off));
        if b.Some? {
          var blk := bm.ReadBlock(b.value as nat);
          bm.WriteBlock(Splice(blk, InBlock(bs, off), data), b.value as nat);
          ok := true;
        }
      }
    }

    /**
     * The loop of `read_inode_data`: one helper call per block the range
     * touches, each up to the next block boundary.
     */
    method ReadFile(ghost rd: Reader, ino: Inode, off: nat, size: nat) returns (r: Option<seq<byte>>)
      requires Valid() && ReadsDisk(rd, ino)
      ensures r == ReadStream(rd, BlockBytes(Log(sbm.sb)), off, size)
    {
      var bs := BlockBytes(Log(sbm.sb));
      var readed: nat, acc: seq<byte> := 0, [];
      PrependEmpty(ReadStream(rd, bs, off + readed, size - readed));
      while readed < size
        invariant readed <= size
        invariant ReadStream(rd, bs, off, size) == Prepend(acc, ReadStream(rd, bs, off + readed, size - readed))
        decreases size - readed
      {
        var chunk, n := ReadTurn(rd, ino, bs, off, size, readed, acc);
        if chunk.None? {
          return None;
        }
        acc, readed := acc + chunk.value, readed + n;
      }
      assert acc + [] == acc;
      r := Some(acc);
    }

    /**
     * One turn of the loop of `read_inode_data`: the helper reads the chunk at
     * off + readed, up to the next block boundary, n bytes long.
     */
    method ReadTurn(ghost rd: Reader, ino: Inode, bs: nat, off: nat, size: nat, readed: nat, ghost acc: seq<byte>)
      returns (chunk: Option<seq<byte>>, n: nat)
      requires Valid() && ReadsDisk(rd, ino) && bs == BlockBytes(Log(sbm.sb)) && readed < size
      requires ReadStream(rd, bs, off, size) == Prepend(acc, ReadStream(rd, bs, off + readed, size - readed))
      ensures readed < readed + n <= size
      ensures chunk.None? ==> ReadStream(rd, bs, off, size).None?
      ensures chunk.Some? ==>
        ReadStream(rd, bs, off, size) == Prepend(acc + chunk.value, ReadStream(rd, bs, off + (readed + n), size - (readed + n)))
    {
      var cur, rem := off + readed, size - readed;
      n := ChunkSize(bs, cur, rem);
      chunk := ReadHelper(rd, ino, cur, n);
      if chunk.None? {
        ReadStreamOff(rd, bs, cur, rem, n);
      } else {
        ReadAdvance(rd, bs, off, size, readed, n, acc, chunk.value);
      }
    }

    /** `read_inode_data(iid, dst, off, size)`: the bytes read, None where a helper aborts. */
    method ReadData(iid: u32, off: nat, size: nat) returns (r: Option<seq<byte>>)
      requires Valid() && ValidIid(sbm.sb, bm.bgd, iid)
      ensures r == Directories.ReadData(Fs(), sbm.sb, bm.bgd, iid, off, size)
    {
      var ino := ReadInode(iid);
      r := ReadFile(DiskReader(Fs(), sbm.sb, bm.bgd, ino), ino, off, size);
    }

    /**
     * The loop of `write_inode_data`: one helper call per block the range
     * touches; false where a helper aborts, leaving the earlier chunks written.
     */
    method WriteFile(ghost wr: Writer, ino: Inode, off: nat, data: seq<byte>) returns (ok: bool)
      requires Valid() && WritesDisk(wr, ino)
      modifies bm.disk
      ensures Valid() && WritesDisk(wr, ino)
      ensures var w := WriteStream(wr, old(Fs()), BlockBytes(Log(sbm.sb)), off, data);
        ok == w.Some? && (ok ==> Fs() == w.value)
    {
      var bs := BlockBytes(Log(sbm.sb));
      WriteFromStream(wr, Fs(), bs, off, data, 0);
      assert data[0..] == data;
      ghost var fs0 := Fs();
      var written := 0;
      while written < |data|
        invariant Valid() && WritesDisk(wr, ino) && written <= |data|
        invariant WriteFrom(wr, fs0, bs, off, data, 0) == WriteFrom(wr, Fs(), bs, off, data, written)
        decreases |data| - written
      {
        var n;
        ok, n := WriteTurn(wr, ino, bs, off, data, written);
        if !ok {
          return false;
        }
        written := written + n;
      }
      ok := true;
    }

    /**
     * One turn of the loop of `write_inode_data`: the helper writes the chunk
     * at off + written, up to the next block boundary, n bytes long.
     */
    method WriteTurn(ghost wr: Writer, ino: Inode, bs: nat, off: nat, data: seq<byte>, written: nat)
      returns (ok: bool, n: nat)
      requires Valid() && WritesDisk(wr, ino) && bs == BlockBytes(Log(sbm.sb)) && written < |data|
      modifies bm.disk
      ensures Valid() && WritesDisk(wr, ino) && written < written + n <= |data|
      ensures WriteFrom(wr, old(Fs()), bs, off, data, written)
        == if ok then WriteFrom(wr, Fs(), bs, off, data, written + n) else None
    {
      n := ChunkSize(bs, off + written, |data| - written);
      ok := WriteHelper(wr, ino, off + written, data[written..written + n]);
    }

    /** `write_inode_data(iid, src, off, |data|)`: the image afterwards, where no helper aborts. */
    method WriteData(iid: u32, off: nat, data: seq<byte>) returns (ok: bool)
      requires Valid() && ValidIid(sbm.sb, bm.bgd, iid)
      modifies bm.disk
      ensures Valid()
      ensures ok == Directories.WriteData(old(Fs()), sbm.sb, bm.bgd, iid, off, data).Some?
      ensures ok ==> Fs() == Directories.WriteData(old(Fs()), sbm.sb, bm.bgd, iid, off, data).value
    {
      var ino := ReadInode(iid);
      ok := WriteFile(ChunkWriter(Resolution(sbm.sb, bm.bgd, ino), BlockBytes(Log(sbm.sb))), ino, off, data);
    }

    // -------------------------------------------------------------------
    // Freeing the blocks of a subtree
    // -------------------------------------------------------------------

    /** The release at the end of `free_indirect_blocks`: `tagBlock(bid, 0)` when yes. */
    method Release(bid: u32, yes: bool) returns (r: Option<bool>)
      requires Valid()
      modifies bm.disk
      ensures Valid()
      ensures var f := Freeing.Release(old(Fs()), sbm.sb, bm.bgd, bid, yes);
        r.Some? == f.Some? && (r.Some? ==> r.value == f.value.0 && Fs() == f.value.1)
    {
      if !yes {
        return Some(false);
      }
      if !Taggable(sbm.sb, bm.bgd, bid) {
        return None;
      }
      var _ := bm.TagBlock(bid, false);
      r := Some(true);
    }

    /**
     * The level-1 loop: marks the blocks of entries [start, end) of blk free;
     * false where an entry is zero or lies outside the block.
     */
    method ClearEntries(blk: seq<byte>, start: nat, end: nat) returns (ok: bool)
      requires Valid()
      modifies bm.disk
      ensures Valid()
      ensures var f := Freeing.ClearEntries(old(Fs()), sbm.sb, bm.bgd, blk, start, end);
        ok == f.Some? && (ok ==> Fs() == f.value)
    {
      ghost var fs0 := Fs();
      var i := start;
      while i < end
        invariant Valid()
        invariant Freeing.ClearEntries(fs0, sbm.sb, bm.bgd, blk, start, end)
               == Freeing.ClearEntries(Fs(), sbm.sb, bm.bgd, blk, i, end)
        decreases end - i
      {
        if 4 * i + 4 > |blk| {
          return false;
        }
        var entry := WordAt(blk, i);
        if entry == 0 || !Taggable(sbm.sb, bm.bgd, entry) {
          return false;
        }
        var _ := bm.TagBlock(entry, false);
        i := i + 1;
      }
      ok := true;
    }

    /** `level_entries`: the data blocks under one entry at level, by repeated multiplication. */
    method LevelSize(level: nat) returns (le: nat)
      requires Valid() && level >= 1
      ensures le == LevelEntries(Entries(sbm.sb), level)
    {
      var n := Entries(sbm.sb);
      le := 1;
      var i := 1;
      while i < level
        invariant 1 <= i <= level && le == LevelEntries(n, i)
      {
        le := Mul(le, n);
        i := i + 1;
      }
    }

    /**
     * `sub_start` and `sub_end` of child i: from start % le in the first child,
     * up to the end of the range in the last, the whole child otherwise.
     */
    method ChildRange(v: Variant, start: nat, end: nat, le: nat, i: nat) returns (lo: nat, hi: nat)
      requires le > 0
      requires if v.AsWritten? then i <= Div(end, le) else start < end && Mul(i, le) < end
      ensures var vs := VisitsFrom(v, start, end, le, i);
        |vs| > 0 && vs[0] == Visit(i, lo, hi) && vs[1..] == VisitsFrom(v, start, end, le, i + 1)
    {
      VisitsStep(v, start, end, le, i);
      MulSucc(i, le);
      lo := if i == Div(start, le) then Mod(start, le) else 0;
      if v.AsWritten? {
        hi := if i == Div(end, le) then Mod(end, le) else le;
      } else {
        hi := if Mul(i + 1, le) >= end then end - Mul(i, le) else le;
      }
    }

    /**
     * `free_indirect_blocks(bid, level, start, end)`: whether bid was
     * released; None where the source aborts.
     */
    method FreeIndirect(v: Variant, bid: u32, level: nat, start: nat, end: nat) returns (r: Option<bool>)
      requires Valid() && level >= 1
      modifies bm.disk
      ensures Valid()
      ensures var f := Freeing.FreeIndirect(v, old(Fs()), sbm.sb, bm.bgd, bid, level, start, end);
        r.Some? == f.Some? && (r.Some? ==> r.value == f.value.0 && Fs() == f.value.1)
      decreases level, 2
    {
      var sb := sbm.sb;
      if bid as nat >= FsBlocks(Log(sb)) {
        return None;
      }
      var blk := bm.ReadBlock(bid as nat);
      var le := LevelSize(level);
      if level == 1 {
        var ok := ClearEntries(blk, start, end);
        if !ok {
          return None;
        }
        r := Release(bid, start == 0);
        return;
      }
      var res := FreeChildren(v, blk, level, start, end);
      if res.None? {
        return None;
      }
      bm.WriteBlock(res.value, bid as nat);
      r := Release(bid, if v.AsWritten? then Div(start, le) == 0 else start == 0);
    }

    /**
     * The loop over children above level 1, from `start / level_entries`
     * while the variant's test holds. The updated copy of blk, None where the
     * source aborts.
     */
    method FreeChildren(v: Variant, blk0: seq<byte>, level: nat, start: nat, end: nat) returns (r: Option<seq<byte>>)
      requires Valid() && level >= 2
      modifies bm.disk
      ensures Valid()
      ensures var f := Freeing.FreeChildren(v, old(Fs()), sbm.sb, bm.bgd, blk0, level,
                                            Visits(v, start, end, LevelEntries(Entries(sbm.sb), level)));
        r.Some? == f.Some? && (r.Some? ==> r.value == f.value.1 && Fs() == f.value.0)
      decreases level, 1
    {
      ghost var fs0 := Fs();
      var le := LevelSize(level);
      var startIndex, endIndex := Div(start, le), Div(end, le);
      var blk := blk0;
      var i: nat := startIndex;
      ghost var vs := VisitsFrom(v, start, end, le, i);
      ghost var outcome := Freeing.FreeChildren(v, fs0, sbm.sb, bm.bgd, blk0, level, vs);
      while if v.AsWritten? then i <= endIndex else start < end && Mul(i, le) < end
        invariant Valid() && vs == VisitsFrom(v, start, end, le, i)
        invariant outcome == Freeing.FreeChildren(v, Fs(), sbm.sb, bm.bgd, blk, level, vs)
        decreases if v.AsWritten? then endIndex + 1 - i else end - Mul(i, le)
      {
        var subStart, subEnd := ChildRange(v, start, end, le, i);
        MulSucc(i, le);
        var next := FreeChild(v, blk, level, i, subStart, subEnd, vs);
        if next.None? {
          return None;
        }
        blk := next.value;
        i := i + 1;
        vs := vs[1..];
      }
      VisitsDone(v, start, end, le, i);
      r := Some(blk);
    }

    /**
     * One turn of the loop over children, visiting child i over [lo, hi), the
     * first of the visits vs left: entry i of blk must be inside it and
     * non-zero; the child is freed one level down and its entry zeroed when
     * it was released. The loop's outcome is that of the rest of vs from the
     * state this turn leaves.
     */
    method FreeChild(v: Variant, blk: seq<byte>, level: nat, i: nat, lo: nat, hi: nat, ghost vs: seq<Visit>)
      returns (r: Option<seq<byte>>)
      requires Valid() && level >= 2 && |vs| > 0 && vs[0] == Visit(i, lo, hi)
      modifies bm.disk
      ensures Valid()
      ensures var f := Freeing.FreeChildren(v, old(Fs()), sbm.sb, bm.bgd, blk, level, vs);
        (r.None? ==> f.None?) && (r.Some? ==> f == Freeing.FreeChildren(v, Fs(), sbm.sb, bm.bgd, r.value, level, vs[1..]))
      decreases level, 0
    {
      if 4 * i + 4 > |blk| || WordAt(blk, i) == 0 {
        return None;
      }
      var freed := FreeIndirect(v, WordAt(blk, i), level - 1, lo, hi);
      if freed.None? {
        return None;
      }
      r := Some(if freed.value then SetWordAt(blk, i, 0) else blk);
    }

    // -------------------------------------------------------------------
    // resize
    // -------------------------------------------------------------------

    /**
     * The shrink's loop over direct slots from i to stop: each slot must be
     * non-zero; its block is marked free and the slot zeroed.
     */
    method FreeDirect(ino: Inode, after: nat, stop: nat) returns (r: Option<Inode>)
      requires Valid() && stop <= NDIRECT_BLOCK
      modifies bm.disk
      ensures Valid()
      ensures var f := Resizing.FreeDirect(old(Fs()), sbm.sb, bm.bgd, ino, after, stop);
        r.Some? == f.Some? && (r.Some? ==> r.value == f.value.0 && Fs() == f.value.1)
    {
      ghost var fs0 := Fs();
      var cur := ino;
      var i := after;
      while i < stop
        invariant Valid()
        invariant Resizing.FreeDirect(fs0, sbm.sb, bm.bgd, ino, after, stop)
               == Resizing.FreeDirect(Fs(), sbm.sb, bm.bgd, cur, i, stop)
        decreases stop - i
      {
        var b := cur.block[i];
        if b == 0 || !Taggable(sbm.sb, bm.bgd, b) {
          return None;
        }
        var _ := bm.TagBlock(b, false);
        cur := Resizing.ClearSlot(cur, i);
        i := i + 1;
      }
      r := Some(cur);
    }

    /**
     * One indirect level of the shrink: when the file used blocks past base,
     * frees its subtree from after - base (or 0) to min(used - base, cap) and
     * zeroes the slot when the subtree's root was released.
     */
    method FreeLevel(v: Variant, ino: Inode, slot: nat, level: nat, base: nat, cap: nat, used: nat, after: nat)
      returns (r: Option<Inode>)
      requires Valid() && slot < N_BLOCK_PTRS && level >= 1
      modifies bm.disk
      ensures Valid()
      ensures var f := Resizing.FreeLevel(v, old(Fs()), sbm.sb, bm.bgd, ino, slot, level, base, cap, used, after);
        r.Some? == f.Some? && (r.Some? ==> r.value == f.value.0 && Fs() == f.value.1)
    {
      if used <= base {
        return Some(ino);
      }
      var start := if after > base then after - base else 0;
      var end := if used - base > cap then cap else used - base;
      var freed := FreeIndirect(v, ino.block[slot], level, start, end);
      if freed.None? {
        return None;
      }
      r := Some(if freed.value then Resizing.ClearSlot(ino, slot) else ino);
    }

    /** The shrink branch of `resize`: the direct slots, then the three indirect levels. */
    method Shrink(v: Variant, ino: Inode, used: nat, after: nat) returns (r: Option<Inode>)
      requires Valid()
      modifies bm.disk
      ensures Valid()
      ensures var f := Resizing.Shrink(v, old(Fs()), sbm.sb, bm.bgd, ino, used, after);
        r.Some? == f.Some? && (r.Some? ==> r.value == f.value.0 && Fs() == f.value.1)
    {
      var e := Entries(sbm.sb);
      r := FreeDirect(ino, after, if used < NDIRECT_BLOCK then used else NDIRECT_BLOCK);
      if r.None? {
        return;
      }
      r := FreeLevel(v, r.value, SINGLE_SLOT, 1, NDIRECT_BLOCK, N1INDIRECT_BLOCK * e, used, after);
      if r.None? {
        return;
      }
      r := FreeLevel(v, r.value, DOUBLE_SLOT, 2, DoubleStart(e), N2INDIRECT_BLOCK * Mul(e, e), used, after);
      if r.None? {
        return;
      }
      r := FreeLevel(v, r.value, TRIPLE_SLOT, 3, TripleStart(e), N3INDIRECT_BLOCK * Mul(Mul(e, e), e), used, after);
    }

    /** The grow branch of `resize`: `allocate_data(inode, i)` for i from used up to after. */
    method Grow(ino: Inode, used: nat, after: nat) returns (r: Option<Inode>)
      requires Valid()
      modifies bm.disk
      ensures Valid()
      ensures var f := Resizing.Grow(old(Fs()), sbm.sb, bm.bgd, ino, used, after);
        r.Some? == f.Some? && (r.Some? ==> r.value == f.value.0 && Fs() == f.value.1)
    {
      ghost var fs0 := Fs();
      var cur := ino;
      var i := used;
      while i < after
        invariant Valid()
        invariant Resizing.Grow(fs0, sbm.sb, bm.bgd, ino, used, after) == Resizing.Grow(Fs(), sbm.sb, bm.bgd, cur, i, after)
        decreases after - i
      {
        var next := AllocateData(cur, i);
        if next.None? {
          return None;
        }
        cur := next.value;
        i := i + 1;
      }
      r := Some(cur);
    }

    /**
     * `resize(iid, size)`: frees or allocates blocks between the count in use
     * and the count the new size needs, then writes the inode with the new
     * size and sector count; only the size when the counts agree. False where
     * the source aborts.
     */
    method Resize(v: Variant, iid: u32, size: u32) returns (ok: bool)
      requires Valid() && ValidIid(sbm.sb, bm.bgd, iid)
      modifies bm.disk
      ensures Valid()
      ensures var f := Resizing.Resize(v, old(Fs()), sbm.sb, bm.bgd, iid as nat, size);
        ok == f.Some? && (ok ==> Fs() == f.value)
    {
      var ino := ReadInode(iid);
      var used := Resizing.UsedBlocks(sbm.sb, ino);
      var after := Resizing.NeededBlocks(v, sbm.sb, size);
      LogBound(sbm.sb, bm.bgd);
      if used == after {
        ok := WriteInode(ino.(size := size), iid);
        return;
      }
      var r;
      if used > after {
        r := Shrink(v, ino, used, after);
      } else {
        r := Grow(ino, used, after);
      }
      if r.None? {
        return false;
      }
      ok := WriteInode(Resizing.Resized(v, sbm.sb, r.value, size), iid);
    }

    // -------------------------------------------------------------------
    // allocate_data
    // -------------------------------------------------------------------

    /**
     * The descent below indirect block at, whose contents are blk: the last
     * index is pointed at a fresh block; above it a zero entry is pointed at a
     * fresh indirect block, and blk is written back when its entry changed or
     * the caller allocated at (made). False where no block is free or a
     * pointer lies outside the filesystem.
     */
    method Descend(blk: seq<byte>, at: u32, path: seq<nat>, made: bool) returns (ok: bool)
      requires Valid() && PathInBlock(sbm.sb, path) && |path| > 0
      requires |blk| == BlockBytes(Log(sbm.sb)) && at as nat < FsBlocks(Log(sbm.sb))
      modifies bm.disk
      ensures Valid()
      ensures var f := Allocation.Descend(old(Fs()), sbm.sb, bm.bgd, blk, at, path, made);
        ok == f.Some? && (ok ==> Fs() == f.value)
      decreases |path|
    {
      var k := path[0];
      EntryInBlock(sbm.sb, k);
      if |path| == 1 {
        var q := bm.GetIdleBlock();
        if q.None? {
          return false;
        }
        bm.WriteBlock(SetWordAt(blk, k, q.value), at as nat);
        return true;
      }
      assert PathInBlock(sbm.sb, path[1..]);
      if WordAt(blk, k) == 0 {
        var q := bm.GetIdleBlock();
        if q.None? {
          return false;
        }
        var child := bm.ReadBlock(q.value as nat);
        bm.WriteBlock(SetWordAt(blk, k, q.value), at as nat);
        ok := Descend(child, q.value, path[1..], false);
      } else if WordAt(blk, k) as nat >= FsBlocks(Log(sbm.sb)) {
        ok := false;
      } else {
        var p := WordAt(blk, k);
        var child := bm.ReadBlock(p as nat);
        if made {
          bm.WriteBlock(blk, at as nat);
        }
        ok := Descend(child, p, path[1..], false);
      }
    }

    /**
     * `allocate_data(in, bid)`: gives logical block bid a fresh data block,
     * allocating the slot's indirect block when it is zero. The updated
     * inode, None where the source aborts; an index beyond the
     * triple-indirect range changes nothing.
     */
    method AllocateData(ino: Inode, bid: nat) returns (r: Option<Inode>)
      requires Valid()
      modifies bm.disk
      ensures Valid()
      ensures var f := Allocation.AllocateData(old(Fs()), sbm.sb, bm.bgd, ino, bid);
        r.Some? == f.Some? && (r.Some? ==> r.value == f.value.0 && Fs() == f.value.1)
    {
      var l := Locate(bid, Entries(sbm.sb));
      if l.Beyond? {
        return Some(ino);
      }
      LocateIndex(bid, Entries(sbm.sb));
      PathFits(l, Entries(sbm.sb));
      var s := Slot(l);
      if l.Direct? || ino.block[s] == 0 {
        var q := bm.GetIdleBlock();
        if q.None? {
          return None;
        }
        var ino1 := ino.(block := ino.block[s := q.value]);
        if l.Direct? {
          return Some(ino1);
        }
        var top := bm.ReadBlock(q.value as nat);
        var ok := Descend(top, q.value, PathOf(l), true);
        return if ok then Some(ino1) else None;
      }
      if ino.block[s] as nat >= FsBlocks(Log(sbm.sb)) {
        return None;
      }
      var top := bm.ReadBlock(ino.block[s] as nat);
      var ok := Descend(top, ino.block[s], PathOf(l), false);
      r := if ok then Some(ino) else None;
    }

    // -------------------------------------------------------------------
    // Directories
    // -------------------------------------------------------------------

    /** `cur_dentry()` at off: the header the helper reads there, None where it aborts or falls short. */
    method CurDentry(ghost rd: Reader, ino: Inode, off: nat) returns (h: Option<DentryHeader>)
      requires Valid() && ReadsDisk(rd, ino)
      ensures h == HeaderAt(DirOf(rd), off)
    {
      var b := ReadHelper(rd, ino, off, DENTRY_BYTES);
      if b.None? || |b.value| != DENTRY_BYTES {
        return None;
      }
      h := Some(DecodeDentry(b.value));
    }

    /** `cur_dentry_name()` at off, with h the header there: the name_len bytes after it. */
    method CurDentryName(ghost rd: Reader, ino: Inode, off: nat, h: DentryHeader) returns (n: Option<seq<byte>>)
      requires Valid() && ReadsDisk(rd, ino)
      ensures n == NameAt(DirOf(rd), off, h)
    {
      n := ReadHelper(rd, ino, off + DENTRY_BYTES, h.nameLen as nat);
      if n.Some? && |n.value| != h.nameLen as nat {
        n := None;
      }
    }

    /**
     * `find_next(in, name)`: walks the entries from offset 0 to i_size; the
     * inode of the first entry named name, none when there is none, None
     * where a read aborts or a rec_len is 0 or overruns i_size.
     */
    method FindNext(ino: Inode, name: seq<byte>) returns (r: Option<Option<u32>>)
      requires Valid()
      ensures r == FindOnDisk(Fs(), sbm.sb, bm.bgd, ino, name)
    {
      r := FindIn(DiskReader(Fs(), sbm.sb, bm.bgd, ino), ino, name);
    }

    /** The loop of `find_next` over the directory rd reads. */
    method FindIn(ghost rd: Reader, ino: Inode, name: seq<byte>) returns (r: Option<Option<u32>>)
      requires Valid() && ReadsDisk(rd, ino)
      ensures r == Directories.FindNext(DirOf(rd), ino.size as nat, name)
    {
      var off: nat := 0;
      while off != ino.size as nat
        invariant off <= ino.size as nat
        invariant FindFrom(DirOf(rd), ino.size as nat, name, off) == FindFrom(DirOf(rd), ino.size as nat, name, 0)
        decreases ino.size as nat - off
      {
        var h := CurDentry(rd, ino, off);
        if h.None? {
          return None;
        }
        var n := CurDentryName(rd, ino, off, h.value);
        if n.None? {
          return None;
        }
        if n.value == name {
          return Some(Some(h.value.inode));
        }
        var next := Step(ino.size as nat, off, h.value);
        if next.None? {
          return None;
        }
        off := next.value;
      }
      r := Some(None);
    }

    /**
     * `dir_empty(dst)`: true for a link count of 2 without reading;
     * otherwise false at the first name other than "." and "..". None where
     * dst is not a directory or a read aborts.
     */
    method DirEmpty(dst: u32) returns (r: Option<bool>)
      requires Valid() && ValidIid(sbm.sb, bm.bgd, dst)
      ensures r == Directories.DirEmpty(Fs(), sbm.sb, bm.bgd, dst as nat)
    {
      var ino := ReadInode(dst);
      if !HasModeBit(ino.mode, EXT2_S_IFDIR) {
        return None;
      }
      if ino.linksCount == 2 {
        return Some(true);
      }
      r := EmptyIn(DiskReader(Fs(), sbm.sb, bm.bgd, ino), ino);
    }

    /** The loop of `dir_empty` over the directory rd reads. */
    method EmptyIn(ghost rd: Reader, ino: Inode) returns (r: Option<bool>)
      requires Valid() && ReadsDisk(rd, ino)
      ensures r == EmptyFrom(DirOf(rd), ino.size as nat, 0)
    {
      var off: nat := 0;
      while off != ino.size as nat
        invariant off <= ino.size as nat
        invariant EmptyFrom(DirOf(rd), ino.size as nat, off) == EmptyFrom(DirOf(rd), ino.size as nat, 0)
        decreases ino.size as nat - off
      {
        var h := CurDentry(rd, ino, off);
        if h.None? {
          return None;
        }
        var n := CurDentryName(rd, ino, off, h.value);
        if n.None? {
          return None;
        }
        if n.value != DOT && n.value != DOTDOT {
          return Some(false);
        }
        var next := Step(ino.size as nat, off, h.value);
        if next.None? {
          return None;
        }
        off := next.value;
      }
      r := Some(true);
    }

    /**
     * `dir_del_dentry(dst, name)`: the entry before the first one named name
     * takes over its rec_len. False where dst is not a directory, the name is
     * missing or names the first entry, or a read or write aborts.
     */
    method DirDel(dst: u32, name: seq<byte>) returns (ok: bool)
      requires Valid() && ValidIid(sbm.sb, bm.bgd, dst)
      modifies bm.disk
      ensures Valid()
      ensures var f := Directories.DirDel(old(Fs()), sbm.sb, bm.bgd, dst as nat, name);
        ok == f.Some? && (ok ==> Fs() == f.value)
    {
      var t := DelTarget(dst, name);
      if t.None? {
        return false;
      }
      ok := WriteData(dst, t.value.0, EncodeDentry(t.value.1));
    }

    /** The search of `dir_del_dentry`: where the merged header goes, and what it is. */
    method DelTarget(dst: u32, name: seq<byte>) returns (r: Option<(nat, DentryHeader)>)
      requires Valid() && ValidIid(sbm.sb, bm.bgd, dst)
      ensures r == Directories.DelTarget(Fs(), sbm.sb, bm.bgd, dst as nat, name)
    {
      var ino := ReadInode(dst);
      if !HasModeBit(ino.mode, EXT2_S_IFDIR) {
        return None;
      }
      var found := DelIn(DiskReader(Fs(), sbm.sb, bm.bgd, ino), ino, name);
      r := Absorb(found);
    }

    /**
     * The loop of `dir_del_dentry` over the directory rd reads: the first
     * entry named name, with the offset and header of the entry before it.
     */
    method DelIn(ghost rd: Reader, ino: Inode, name: seq<byte>) returns (r: Option<(nat, DentryHeader, DentryHeader)>)
      requires Valid() && ReadsDisk(rd, ino)
      ensures r == DelFrom(DirOf(rd), ino.size as nat, name, 0, 0)
    {
      var off: nat, prev: nat := 0, 0;
      while off != ino.size as nat
        invariant off <= ino.size as nat
        invariant DelFrom(DirOf(rd), ino.size as nat, name, off, prev) == DelFrom(DirOf(rd), ino.size as nat, name, 0, 0)
        decreases ino.size as nat - off
      {
        var h := CurDentry(rd, ino, off);
        if h.None? {
          return None;
        }
        var n := CurDentryName(rd, ino, off, h.value);
        if n.None? {
          return None;
        }
        if n.value == name {
          if off == 0 {
            return None;
          }
          var ph := CurDentry(rd, ino, prev);
          if ph.None? {
            return None;
          }
          return Some((prev, ph.value, h.value));
        }
        var next := Step(ino.size as nat, off, h.value);
        if next.None? {
          return None;
        }
        off, prev := next.value, off;
      }
      r := None;
    }
    /** The first loop of `dir_add_dentry` over the directory rd reads: the offset of the last entry. */
    method LastIn(ghost rd: Reader, ino: Inode) returns (r: Option<nat>)
      requires Valid() && ReadsDisk(rd, ino)
      ensures r == LastFrom(DirOf(rd), ino.size as nat, 0, 0)
    {
      var off: nat, prev: nat := 0, 0;
      while off != ino.size as nat
        invariant off <= ino.size as nat
        invariant LastFrom(DirOf(rd), ino.size as nat, off, prev) == LastFrom(DirOf(rd), ino.size as nat, 0, 0)
        decreases ino.size as nat - off
      {
        var h := CurDentry(rd, ino, off);
        if h.None? {
          return None;
        }
        var next := Step(ino.size as nat, off, h.value);
        if next.None? {
          return None;
        }
        off, prev := next.value, off;
      }
      r := Some(prev);
    }

    /**
     * The stretching step of `dir_add_dentry(dst, ...)`: the last entry's
     * rec_len is set to reach the end of its block, then the directory is
     * resized by the difference. False where the directory is empty or a
     * step aborts.
     */
    method Stretch(v: Variant, dst: u32) returns (ok: bool)
      requires Valid() && ValidIid(sbm.sb, bm.bgd, dst)
      modifies bm.disk
      ensures Valid()
      ensures var f := Directories.Stretch(v, old(Fs()), sbm.sb, bm.bgd, dst as nat);
        ok == f.Some? && (ok ==> Fs() == f.value)
    {
      var last := LastEntry(dst);
      if last.None? {
        return false;
      }
      var (p, ph) := last.value;
      var ino := ReadInode(dst);
      var rec := StretchRec(BlockBytes(Log(sbm.sb)), p);
      ok := StretchLast(v, dst, p, ph.(recLen := rec % 0x1_0000), StretchedSize(ino.size, rec, ph.recLen));
    }

    /** The first loop of `dir_add_dentry` and the header of the last entry it finds. */
    method LastEntry(dst: u32) returns (r: Option<(nat, DentryHeader)>)
      requires Valid() && ValidIid(sbm.sb, bm.bgd, dst)
      ensures r == Directories.LastEntry(Fs(), sbm.sb, bm.bgd, dst as nat)
    {
      var ino := ReadInode(dst);
      var last := LastIn(DiskReader(Fs(), sbm.sb, bm.bgd, ino), ino);
      if last.None? || last.value == ino.size as nat {
        return None;
      }
      var ph := CurDentry(DiskReader(Fs(), sbm.sb, bm.bgd, ino), ino, last.value);
      if ph.None? {
        return None;
      }
      r := Some((last.value, ph.value));
    }

    /** Rewrites the last entry, at p, with header h and resizes the directory to size. */
    method StretchLast(v: Variant, dst: u32, p: nat, h: DentryHeader, size: u32) returns (ok: bool)
      requires Valid() && ValidIid(sbm.sb, bm.bgd, dst)
      modifies bm.disk
      ensures Valid()
      ensures var f := Directories.StretchLast(v, old(Fs()), sbm.sb, bm.bgd, dst as nat, p, h, size);
        ok == f.Some? && (ok ==> Fs() == f.value)
    {
      ok := WriteData(dst, p, EncodeDentry(h));
      if !ok {
        return;
      }
      ok := Resize(v, dst, size);
    }

    /** The end of `dir_add_dentry`: grows the directory by d's rec_len and writes d and the name at the old i_size. */
    method Append(v: Variant, dst: u32, d: DentryHeader, name: seq<byte>) returns (ok: bool)
      requires Valid() && ValidIid(sbm.sb, bm.bgd, dst)
      modifies bm.disk
      ensures Valid()
      ensures var f := Directories.Append(v, old(Fs()), sbm.sb, bm.bgd, dst as nat, d, name);
        ok == f.Some? && (ok ==> Fs() == f.value)
    {
      var ino := ReadInode(dst);
      ok := AppendAt(v, dst, ino.size as nat, Add32(ino.size, d.recLen), d, name);
    }

    /** The end of `dir_add_dentry` for a directory whose i_size is at: resizes to size, then writes the entry at at. */
    method AppendAt(v: Variant, dst: u32, at: nat, size: u32, d: DentryHeader, name: seq<byte>) returns (ok: bool)
      requires Valid() && ValidIid(sbm.sb, bm.bgd, dst)
      modifies bm.disk
      ensures Valid()
      ensures var f := Directories.AppendAt(v, old(Fs()), sbm.sb, bm.bgd, dst as nat, at, size, d, name);
        ok == f.Some? && (ok ==> Fs() == f.value)
    {
      ok := Resize(v, dst, size);
      if !ok {
        return;
      }
      ok := WriteEntry(dst, at, d, name);
    }

    /** The two writes of `dir_add_dentry`: the header at at, then the name. */
    method WriteEntry(dst: u32, at: nat, d: DentryHeader, name: seq<byte>) returns (ok: bool)
      requires Valid() && ValidIid(sbm.sb, bm.bgd, dst)
      modifies bm.disk
      ensures Valid()
      ensures var f := Directories.WriteEntry(old(Fs()), sbm.sb, bm.bgd, dst as nat, at, d, name);
        ok == f.Some? && (ok ==> Fs() == f.value)
    {
      ok := WriteData(dst, at, EncodeDentry(d));
      if !ok {
        return;
      }
      ok := WriteData(dst, at + DENTRY_BYTES, name);
    }

    /**
     * `dir_add_dentry(dst, src, name)`: an entry for src named name, with
     * rec_len `UPPER4(8 + |name|)` and file type always a regular file,
     * appended at the end of directory dst after stretching the last entry
     * to its block's end when the new one would cross it. False where dst is
     * not a directory, the name has 256 bytes or more, or a step aborts.
     * Both resizes are those of variant v: the source's, or the corrected one.
     */
    method DirAdd(v: Variant, dst: u32, src: u32, name: seq<byte>) returns (ok: bool)
      requires Valid() && ValidIid(sbm.sb, bm.bgd, dst)
      modifies bm.disk
      ensures Valid()
      ensures var f := Directories.DirAdd(v, old(Fs()), sbm.sb, bm.bgd, dst as nat, src, name);
        ok == f.Some? && (ok ==> Fs() == f.value)
    {
      var ino := ReadInode(dst);
      var bs := BlockBytes(Log(sbm.sb));
      if !HasModeBit(ino.mode, EXT2_S_IFDIR) || |name| >= 256 {
        return false;
      }
      NewRecLenBounds(|name|);
      var d := DentryHeader(src, NewRecLen(|name|), |name|, EXT2_FT_REG_FILE);
      if NeedsStretch(bs, ino.size as nat, d.recLen as nat) {
        ok := Stretch(v, dst);
        if !ok {
          return;
        }
      }
      ok := Append(v, dst, d, name);
    }
  }
}
