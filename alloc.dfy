/**
 * `allocate_data`: gives logical block bid of a file a fresh data block. A
 * direct slot is simply pointed at a fresh block; for an indirect index, every
 * missing (zero) pointer on the way down is given a fresh indirect block, the
 * indirect blocks whose entries changed are written back, and the entry of the
 * last indirect block is pointed at the fresh data block. The inode itself is
 * returned, not written: the caller stores it.
 */
module Allocation {
  import opened Bytes
  import opened Ext2
  import opened Blocks
  import opened Addressing

  /**
   * The descent below indirect block `at`, whose contents the caller has read
   * into blk. With one index left, the entry is pointed at a fresh block and
   * blk is written back. Otherwise the entry is followed, or, when it is zero,
   * pointed at a fresh block; blk is written back when that happened or when
   * the caller allocated `at` itself (`made`), and the descent continues in
   * the child. None where `getIdleBlock` finds no free block or a pointer lies
   * outside the filesystem.
   */
  function Descend(fs: Image, sb: SuperBlock, bgd: seq<GroupDesc>, blk: seq<byte>, at: u32,
                   path: seq<nat>, made: bool): (r: Option<Image>)
    requires Geometry(sb, bgd) && Shaped(fs, Log(sb)) && PathInBlock(sb, path) && |path| > 0
    requires |blk| == BlockBytes(Log(sb)) && at as nat < |fs|
    ensures r.Some? ==> Shaped(r.value, Log(sb))
    decreases |path|
  {
    var k := path[0];
    EntryInBlock(sb, k);
    if |path| == 1 then
      var (q, fs1) := IdleBlock(fs, sb, bgd);
      if q.None? then None
      else Some(fs1[at := SetWordAt(blk, k, q.value)])
    else if WordAt(blk, k) == 0 then
      var (q, fs1) := IdleBlock(fs, sb, bgd);
      if q.None? then None
      else
        var fs2 := fs1[at := SetWordAt(blk, k, q.value)];
        Descend(fs2, sb, bgd, fs1[q.value], q.value, path[1..], false)
    else if WordAt(blk, k) as nat >= |fs| then None
    else
      var p := WordAt(blk, k);
      var fs2 := if made then fs[at := blk] else fs;
      Descend(fs2, sb, bgd, fs[p], p, path[1..], false)
  }

  /**
   * `allocate_data(in, bid)`: the inode and the image afterwards, None where
   * the source aborts. An index beyond the triple-indirect range changes
   * nothing.
   */
  function AllocateData(fs: Image, sb: SuperBlock, bgd: seq<GroupDesc>, ino: Inode, bid: nat): (r: Option<(Inode, Image)>)
    requires Geometry(sb, bgd) && Shaped(fs, Log(sb))
    ensures r.Some? ==> Shaped(r.value.1, Log(sb))
  {
    var l := Locate(bid, Entries(sb));
    if l.Beyond? then Some((ino, fs))
    else
      LocateIndex(bid, Entries(sb));
      PathFits(l, Entries(sb));
      var s := Slot(l);
      if l.Direct? || ino.block[s] == 0 then
        var (q, fs1) := IdleBlock(fs, sb, bgd);
        if q.None? then None
        else
          var ino1 := ino.(block := ino.block[s := q.value]);
          if l.Direct? then Some((ino1, fs1))
          else
            match Descend(fs1, sb, bgd, fs1[q.value], q.value, PathOf(l), true)
            case None => None
            case Some(fs2) => Some((ino1, fs2))
      else if ino.block[s] as nat >= |fs| then None
      else
        match Descend(fs, sb, bgd, fs[ino.block[s]], ino.block[s], PathOf(l), false)
        case None => None
        case Some(fs2) => Some((ino, fs2))
  }

  // ---------------------------------------------------------------------
  // What the allocator may rely on, and what it keeps
  // ---------------------------------------------------------------------

  /** Block x holds no group's block bitmap. */
  predicate NotBitmap(bgd: seq<GroupDesc>, x: u32)
  {
    forall g | 0 <= g < |bgd| :: bgd[g].blockBitmap != x
  }

  /** Block x has a bit in a block bitmap, and the bit is clear. */
  predicate FreeIn(fs: Image, sb: SuperBlock, bgd: seq<GroupDesc>, x: u32)
    requires Geometry(sb, bgd) && Shaped(fs, Log(sb))
  {
    Taggable(sb, bgd, x) && !BlockState(fs, sb, bgd, x)
  }

  /**
   * The blocks `getIdleBlock` must never hand out are marked allocated: block
   * 0, which the pointers use for "none", and every block bitmap. The groups
   * keep their bitmaps apart.
   */
  predicate Reserved(fs: Image, sb: SuperBlock, bgd: seq<GroupDesc>)
    requires Geometry(sb, bgd) && Shaped(fs, Log(sb))
  {
    && DistinctBitmaps(bgd)
    && !FreeIn(fs, sb, bgd, 0)
    && forall g | 0 <= g < |bgd| :: !FreeIn(fs, sb, bgd, bgd[g].blockBitmap)
  }

  /** No block marked allocated in fs is free in fs'. */
  predicate Grows(fs: Image, fs': Image, sb: SuperBlock, bgd: seq<GroupDesc>)
    requires Geometry(sb, bgd) && Shaped(fs, Log(sb)) && Shaped(fs', Log(sb))
  {
    forall c: u32 {:trigger BlockState(fs', sb, bgd, c)} | Taggable(sb, bgd, c) && BlockState(fs, sb, bgd, c) :: BlockState(fs', sb, bgd, c)
  }

  /**
   * fs' holds what fs held in every block that is allocated in fs, is not a
   * bitmap block and is not in spared.
   */
  predicate Kept(fs: Image, fs': Image, sb: SuperBlock, bgd: seq<GroupDesc>, spared: seq<u32>)
    requires Geometry(sb, bgd) && Shaped(fs, Log(sb)) && Shaped(fs', Log(sb))
  {
    forall x: u32 {:trigger FreeIn(fs, sb, bgd, x)}
      | x as nat < |fs| && NotBitmap(bgd, x) && !FreeIn(fs, sb, bgd, x) && x !in spared :: fs'[x] == fs[x]
  }

  /**
   * With the reserved blocks marked, the block `getIdleBlock` hands out is
   * non-zero, no bitmap block, and free beforehand; afterwards it is allocated
   * and zero, every allocated block stays allocated, and no other block but a
   * bitmap block changes.
   */
  lemma IdleFacts(fs: Image, sb: SuperBlock, bgd: seq<GroupDesc>)
    requires Geometry(sb, bgd) && Shaped(fs, Log(sb)) && Reserved(fs, sb, bgd)
    requires IdleBlock(fs, sb, bgd).0.Some?
    ensures var (q, fs1) := IdleBlock(fs, sb, bgd);
      && q.value != 0 && NotBitmap(bgd, q.value) && FreeIn(fs, sb, bgd, q.value)
      && BlockState(fs1, sb, bgd, q.value) && fs1[q.value] == Zeros(BlockBytes(Log(sb)))
      && Grows(fs, fs1, sb, bgd) && Reserved(fs1, sb, bgd)
      && forall x: u32 | x as nat < |fs| && x != q.value && NotBitmap(bgd, x) :: fs1[x] == fs[x]
  {
    IdleBlockSpec(fs, sb, bgd);
    var (q, fs1) := IdleBlock(fs, sb, bgd);
    var (g, i) := FirstFree(fs, sb, bgd).value;
    assert NotBitmap(bgd, q.value) by {
      forall h | 0 <= h < |bgd| ensures bgd[h].blockBitmap != q.value {
        assert !FreeIn(fs, sb, bgd, bgd[h].blockBitmap);
      }
    }
    forall c: u32 | Taggable(sb, bgd, c)
      ensures BlockState(fs1, sb, bgd, c) == (c == q.value || BlockState(fs, sb, bgd, c))
    {
      IdleBlockMarks(fs, sb, bgd, c);
    }
    assert BlockState(fs1, sb, bgd, q.value);
  }

  /**
   * Writing a block that holds no bitmap changes no block's state, so it keeps
   * the reserved blocks reserved.
   */
  lemma WriteFacts(fs: Image, sb: SuperBlock, bgd: seq<GroupDesc>, x: u32, d: seq<byte>)
    requires Geometry(sb, bgd) && Shaped(fs, Log(sb))
    requires x as nat < |fs| && |d| == BlockBytes(Log(sb)) && NotBitmap(bgd, x)
    ensures Shaped(fs[x := d], Log(sb))
    ensures forall c: u32 | Taggable(sb, bgd, c) :: BlockState(fs[x := d], sb, bgd, c) == BlockState(fs, sb, bgd, c)
    ensures Reserved(fs, sb, bgd) ==> Reserved(fs[x := d], sb, bgd)
    ensures Grows(fs, fs[x := d], sb, bgd)
  {
    var fs' := fs[x := d];
    forall c: u32 | Taggable(sb, bgd, c) ensures BlockState(fs', sb, bgd, c) == BlockState(fs, sb, bgd, c) {
      assert fs'[BitmapBlock(sb, bgd, c)] == fs[BitmapBlock(sb, bgd, c)];
    }
  }

  /** Grows is transitive. */
  lemma GrowsTrans(fs: Image, fs1: Image, fs2: Image, sb: SuperBlock, bgd: seq<GroupDesc>)
    requires Geometry(sb, bgd) && Shaped(fs, Log(sb)) && Shaped(fs1, Log(sb)) && Shaped(fs2, Log(sb))
    requires Grows(fs, fs1, sb, bgd) && Grows(fs1, fs2, sb, bgd)
    ensures Grows(fs, fs2, sb, bgd)
  {
  }

  // ---------------------------------------------------------------------
  // The indirect blocks already in place
  // ---------------------------------------------------------------------

  /**
   * The indirect blocks the descent below `at` follows rather than allocates:
   * each non-zero entry on the path, down to the last indirect block.
   */
  function Chain(fs: Image, sb: SuperBlock, at: u32, path: seq<nat>): seq<u32>
    requires Sized(fs, BlockBytes(Log(sb))) && at as nat < |fs| && PathInBlock(sb, path)
    decreases |path|
  {
    if |path| <= 1 then []
    else
      EntryInBlock(sb, path[0]);
      var p := WordAt(fs[at], path[0]);
      if p == 0 || p as nat >= |fs| then [] else [p] + Chain(fs, sb, p, path[1..])
  }

  /**
   * `at` and the indirect blocks already below it on the path are usable
   * pointers, hold no bitmap, and are pairwise distinct.
   */
  predicate Sound(fs: Image, sb: SuperBlock, bgd: seq<GroupDesc>, at: u32, path: seq<nat>)
    requires Geometry(sb, bgd) && Shaped(fs, Log(sb)) && at as nat < |fs| && PathInBlock(sb, path)
  {
    var c := [at] + Chain(fs, sb, at, path);
    && (forall i | 0 <= i < |c| :: Usable(fs, sb, bgd, c[i]) && NotBitmap(bgd, c[i]))
    && (forall i, j | 0 <= i < j < |c| :: c[i] != c[j])
  }

  /** A zero block has no entries to follow. */
  lemma ZeroChain(fs: Image, sb: SuperBlock, at: u32, path: seq<nat>)
    requires Sized(fs, BlockBytes(Log(sb))) && at as nat < |fs| && PathInBlock(sb, path)
    requires fs[at] == Zeros(BlockBytes(Log(sb)))
    ensures Chain(fs, sb, at, path) == []
  {
    if |path| > 1 {
      EntryInBlock(sb, path[0]);
      assert WordAt(fs[at], path[0]) == 0;
    }
  }

  /**
   * The descent, started on a sound chain with the reserved blocks marked,
   * leaves the path resolving to a block that was free before; the reserved
   * blocks stay reserved, no allocated block is freed, and no allocated block
   * changes but bitmap blocks, `at` and the chain below it.
   */
  lemma {:induction false} DescendSpec(fs: Image, sb: SuperBlock, bgd: seq<GroupDesc>, at: u32, path: seq<nat>, made: bool)
    requires Geometry(sb, bgd) && Shaped(fs, Log(sb)) && PathInBlock(sb, path) && |path| > 0
    requires at as nat < |fs| && Reserved(fs, sb, bgd) && Sound(fs, sb, bgd, at, path)
    requires Descend(fs, sb, bgd, fs[at], at, path, made).Some?
    ensures var fs' := Descend(fs, sb, bgd, fs[at], at, path, made).value;
      && Reserved(fs', sb, bgd) && Grows(fs, fs', sb, bgd)
      && Kept(fs, fs', sb, bgd, [at] + Chain(fs, sb, at, path))
      && Walk(fs', sb, bgd, at, path).Some?
      && FreeIn(fs, sb, bgd, Walk(fs', sb, bgd, at, path).value)
    decreases |path|, 1
  {
    EntryInBlock(sb, path[0]);
    if |path| == 1 {
      DescendLeaf(fs, sb, bgd, at, path, made);
    } else if WordAt(fs[at], path[0]) == 0 {
      DescendNew(fs, sb, bgd, at, path, made);
    } else {
      DescendOld(fs, sb, bgd, at, path, made);
    }
  }

  /** DescendSpec where one index is left. */
  lemma DescendLeaf(fs: Image, sb: SuperBlock, bgd: seq<GroupDesc>, at: u32, path: seq<nat>, made: bool)
    requires Geometry(sb, bgd) && Shaped(fs, Log(sb)) && PathInBlock(sb, path) && |path| == 1
    requires at as nat < |fs| && Reserved(fs, sb, bgd) && Sound(fs, sb, bgd, at, path)
    requires Descend(fs, sb, bgd, fs[at], at, path, made).Some?
    ensures var fs' := Descend(fs, sb, bgd, fs[at], at, path, made).value;
      && Reserved(fs', sb, bgd) && Grows(fs, fs', sb, bgd)
      && Kept(fs, fs', sb, bgd, [at] + Chain(fs, sb, at, path))
      && Walk(fs', sb, bgd, at, path).Some?
      && FreeIn(fs, sb, bgd, Walk(fs', sb, bgd, at, path).value)
  {
    var k := path[0];
    EntryInBlock(sb, k);
    var c := [at] + Chain(fs, sb, at, path);
    assert c[0] == at;
    IdleFacts(fs, sb, bgd);
    var (q, fs1) := IdleBlock(fs, sb, bgd);
    var b := SetWordAt(fs[at], k, q.value);
    var fs' := fs1[at := b];
    assert Descend(fs, sb, bgd, fs[at], at, path, made).value == fs';
    WriteFacts(fs1, sb, bgd, at, b);
    GrowsTrans(fs, fs1, fs', sb, bgd);
    assert WordAt(fs'[at], k) == q.value;
    assert Walk(fs', sb, bgd, q.value, []) == Some(q.value);
  }

  /** DescendSpec where the next entry is zero and a child block is allocated. */
  lemma {:induction false} DescendNew(fs: Image, sb: SuperBlock, bgd: seq<GroupDesc>, at: u32, path: seq<nat>, made: bool)
    requires Geometry(sb, bgd) && Shaped(fs, Log(sb)) && PathInBlock(sb, path) && |path| > 1
    requires at as nat < |fs| && Reserved(fs, sb, bgd) && Sound(fs, sb, bgd, at, path)
    requires 4 * path[0] + 4 <= |fs[at]| && WordAt(fs[at], path[0]) == 0
    requires Descend(fs, sb, bgd, fs[at], at, path, made).Some?
    ensures var fs' := Descend(fs, sb, bgd, fs[at], at, path, made).value;
      && Reserved(fs', sb, bgd) && Grows(fs, fs', sb, bgd)
      && Kept(fs, fs', sb, bgd, [at] + Chain(fs, sb, at, path))
      && Walk(fs', sb, bgd, at, path).Some?
      && FreeIn(fs, sb, bgd, Walk(fs', sb, bgd, at, path).value)
    decreases |path|, 0
  {
    var k := path[0];
    var c := [at] + Chain(fs, sb, at, path);
    assert c[0] == at;
    DescendGraft(fs, sb, bgd, at, path, made);
    var (q, fs2, child) := Graft(fs, sb, bgd, at, k);
    GraftFacts(fs, sb, bgd, at, path);
    DescendSpec(fs2, sb, bgd, q, path[1..], false);
    var fs' := Descend(fs2, sb, bgd, fs2[q], q, path[1..], false).value;
    assert [q] + Chain(fs2, sb, q, path[1..]) == [q];
    assert Chain(fs, sb, at, path) == [];
    NewTail(fs, fs2, fs', sb, bgd, at, q, path);
  }

  /** The step from the grafted image to the end of DescendNew. */
  lemma NewTail(fs: Image, fs2: Image, fs': Image, sb: SuperBlock, bgd: seq<GroupDesc>, at: u32, q: u32, path: seq<nat>)
    requires Geometry(sb, bgd) && Shaped(fs, Log(sb)) && Shaped(fs2, Log(sb)) && Shaped(fs', Log(sb))
    requires PathInBlock(sb, path) && |path| > 1 && at as nat < |fs| && q as nat < |fs|
    requires Kept(fs, fs2, sb, bgd, [at]) && Grows(fs, fs2, sb, bgd) && FreeIn(fs, sb, bgd, q) && q != at
    requires Usable(fs2, sb, bgd, at) && NotBitmap(bgd, at) && 4 * path[0] + 4 <= |fs2[at]| && WordAt(fs2[at], path[0]) == q
    requires Reserved(fs', sb, bgd) && Grows(fs2, fs', sb, bgd) && Kept(fs2, fs', sb, bgd, [q])
    requires Walk(fs', sb, bgd, q, path[1..]).Some? && FreeIn(fs2, sb, bgd, Walk(fs', sb, bgd, q, path[1..]).value)
    ensures Grows(fs, fs', sb, bgd) && Kept(fs, fs', sb, bgd, [at])
    ensures Walk(fs', sb, bgd, at, path).Some? && FreeIn(fs, sb, bgd, Walk(fs', sb, bgd, at, path).value)
  {
    GrowsTrans(fs, fs2, fs', sb, bgd);
    KeptTrans(fs, fs2, fs', sb, bgd, [at], [q]);
    KeptAt(fs2, fs', sb, bgd, [q], at);
    assert Usable(fs', sb, bgd, at);
  }

  /**
   * The first steps of the descent at a zero entry: a fresh block q, and the
   * image once entry k of `at` points at it and `at` is written back.
   */
  function Graft(fs: Image, sb: SuperBlock, bgd: seq<GroupDesc>, at: u32, k: nat): (r: (u32, Image, seq<byte>))
    requires Geometry(sb, bgd) && Shaped(fs, Log(sb)) && at as nat < |fs| && k < Entries(sb)
    requires IdleBlock(fs, sb, bgd).0.Some?
    ensures Shaped(r.1, Log(sb)) && r.0 as nat < |fs| && |r.2| == BlockBytes(Log(sb))
  {
    EntryInBlock(sb, k);
    var (q, fs1) := IdleBlock(fs, sb, bgd);
    (q.value, fs1[at := SetWordAt(fs[at], k, q.value)], fs1[q.value])
  }

  /** At a zero entry the descent continues below the grafted block. */
  lemma DescendGraft(fs: Image, sb: SuperBlock, bgd: seq<GroupDesc>, at: u32, path: seq<nat>, made: bool)
    requires Geometry(sb, bgd) && Shaped(fs, Log(sb)) && PathInBlock(sb, path) && |path| > 1 && at as nat < |fs|
    requires 4 * path[0] + 4 <= |fs[at]| && WordAt(fs[at], path[0]) == 0
    requires Descend(fs, sb, bgd, fs[at], at, path, made).Some?
    ensures IdleBlock(fs, sb, bgd).0.Some?
    ensures var (q, fs2, child) := Graft(fs, sb, bgd, at, path[0]);
      Descend(fs, sb, bgd, fs[at], at, path, made) == Descend(fs2, sb, bgd, child, q, path[1..], false)
  {
  }

  /** What the graft establishes for the rest of the descent. */
  lemma GraftFacts(fs: Image, sb: SuperBlock, bgd: seq<GroupDesc>, at: u32, path: seq<nat>)
    requires Geometry(sb, bgd) && Shaped(fs, Log(sb)) && PathInBlock(sb, path) && |path| > 1
    requires at as nat < |fs| && Reserved(fs, sb, bgd) && Usable(fs, sb, bgd, at) && NotBitmap(bgd, at)
    requires IdleBlock(fs, sb, bgd).0.Some?
    ensures var (q, fs2, child) := Graft(fs, sb, bgd, at, path[0]);
      && child == fs2[q] && Reserved(fs2, sb, bgd) && Grows(fs, fs2, sb, bgd) && Kept(fs, fs2, sb, bgd, [at])
      && FreeIn(fs, sb, bgd, q) && Sound(fs2, sb, bgd, q, path[1..]) && Chain(fs2, sb, q, path[1..]) == []
      && q != at && Usable(fs2, sb, bgd, at) && NotBitmap(bgd, at) && !FreeIn(fs2, sb, bgd, at)
      && WordAt(fs2[at], path[0]) == q
  {
    var k := path[0];
    EntryInBlock(sb, k);
    IdleFacts(fs, sb, bgd);
    var (q, fs1) := IdleBlock(fs, sb, bgd);
    var b := SetWordAt(fs[at], k, q.value);
    var fs2 := fs1[at := b];
    WriteFacts(fs1, sb, bgd, at, b);
    GrowsTrans(fs, fs1, fs2, sb, bgd);
    assert fs2[q.value] == Zeros(BlockBytes(Log(sb)));
    ZeroChain(fs2, sb, q.value, path[1..]);
  }

  /** Kept composes, where what the second step spares was spared or free at the start. */
  lemma KeptTrans(fs: Image, fs1: Image, fs2: Image, sb: SuperBlock, bgd: seq<GroupDesc>, s: seq<u32>, t: seq<u32>)
    requires Geometry(sb, bgd) && Shaped(fs, Log(sb)) && Shaped(fs1, Log(sb)) && Shaped(fs2, Log(sb))
    requires Kept(fs, fs1, sb, bgd, s) && Kept(fs1, fs2, sb, bgd, t) && Grows(fs, fs1, sb, bgd)
    requires forall i | 0 <= i < |t| :: t[i] in s || FreeIn(fs, sb, bgd, t[i])
    ensures Kept(fs, fs2, sb, bgd, s)
  {
    forall x: u32 | x as nat < |fs| && NotBitmap(bgd, x) && !FreeIn(fs, sb, bgd, x) && x !in s
      ensures fs2[x] == fs[x]
    {
      assert !FreeIn(fs1, sb, bgd, x);
    }
  }

  /** One block that Kept covers. */
  lemma KeptAt(fs: Image, fs': Image, sb: SuperBlock, bgd: seq<GroupDesc>, s: seq<u32>, x: u32)
    requires Geometry(sb, bgd) && Shaped(fs, Log(sb)) && Shaped(fs', Log(sb)) && Kept(fs, fs', sb, bgd, s)
    requires x as nat < |fs| && NotBitmap(bgd, x) && !FreeIn(fs, sb, bgd, x) && x !in s
    ensures fs'[x] == fs[x]
  {
  }

  /** DescendSpec where the next entry points at an existing child block. */
  lemma {:induction false} DescendOld(fs: Image, sb: SuperBlock, bgd: seq<GroupDesc>, at: u32, path: seq<nat>, made: bool)
    requires Geometry(sb, bgd) && Shaped(fs, Log(sb)) && PathInBlock(sb, path) && |path| > 1
    requires at as nat < |fs| && Reserved(fs, sb, bgd) && Sound(fs, sb, bgd, at, path)
    requires 4 * path[0] + 4 <= |fs[at]| && WordAt(fs[at], path[0]) != 0
    requires Descend(fs, sb, bgd, fs[at], at, path, made).Some?
    ensures var fs' := Descend(fs, sb, bgd, fs[at], at, path, made).value;
      && Reserved(fs', sb, bgd) && Grows(fs, fs', sb, bgd)
      && Kept(fs, fs', sb, bgd, [at] + Chain(fs, sb, at, path))
      && Walk(fs', sb, bgd, at, path).Some?
      && FreeIn(fs, sb, bgd, Walk(fs', sb, bgd, at, path).value)
    decreases |path|, 0
  {
    var p := WordAt(fs[at], path[0]);
    var c := [at] + Chain(fs, sb, at, path);
    ChildFacts(fs, sb, bgd, at, path);
    DescendSpec(fs, sb, bgd, p, path[1..], false);
    var fs' := Descend(fs, sb, bgd, fs[p], p, path[1..], false).value;
    KeptAt(fs, fs', sb, bgd, c[1..], at);
    KeptTrans(fs, fs, fs', sb, bgd, c, c[1..]);
    assert Usable(fs', sb, bgd, at);
  }

  /** At a non-zero entry the descent continues in the child, and the chain below it is sound. */
  lemma ChildFacts(fs: Image, sb: SuperBlock, bgd: seq<GroupDesc>, at: u32, path: seq<nat>)
    requires Geometry(sb, bgd) && Shaped(fs, Log(sb)) && PathInBlock(sb, path) && |path| > 1
    requires at as nat < |fs| && Sound(fs, sb, bgd, at, path)
    requires 4 * path[0] + 4 <= |fs[at]| && WordAt(fs[at], path[0]) != 0
    requires Descend(fs, sb, bgd, fs[at], at, path, false).Some? || Descend(fs, sb, bgd, fs[at], at, path, true).Some?
    ensures var p := WordAt(fs[at], path[0]);
      && p as nat < |fs|
      && (forall made :: Descend(fs, sb, bgd, fs[at], at, path, made) == Descend(fs, sb, bgd, fs[p], p, path[1..], false))
      && Chain(fs, sb, at, path) == [p] + Chain(fs, sb, p, path[1..])
      && Sound(fs, sb, bgd, p, path[1..])
      && at !in [p] + Chain(fs, sb, p, path[1..])
      && Usable(fs, sb, bgd, at) && NotBitmap(bgd, at)
  {
    var p := WordAt(fs[at], path[0]);
    var c := [at] + Chain(fs, sb, at, path);
    assert c[0] == at;
    assert fs[at := fs[at]] == fs;
    assert [p] + Chain(fs, sb, p, path[1..]) == c[1..];
  }

  // ---------------------------------------------------------------------
  // allocate_data
  // ---------------------------------------------------------------------

  /**
   * The indirect blocks already in place that `allocate_data(in, bid)`
   * follows: the block of the slot, when it is non-zero, and the non-zero
   * entries below it on the way to bid.
   */
  function Spine(fs: Image, sb: SuperBlock, ino: Inode, bid: nat): seq<u32>
    requires Sized(fs, BlockBytes(Log(sb)))
  {
    var l := Locate(bid, Entries(sb));
    if l.Beyond? || l.Direct? then []
    else
      LocateIndex(bid, Entries(sb));
      PathFits(l, Entries(sb));
      var p := ino.block[Slot(l)];
      if p == 0 || p as nat >= |fs| then [] else [p] + Chain(fs, sb, p, PathOf(l))
  }

  /** The spine is sound: usable pointers, no bitmap block, no block twice. */
  predicate SpineSound(fs: Image, sb: SuperBlock, bgd: seq<GroupDesc>, ino: Inode, bid: nat)
    requires Geometry(sb, bgd) && Shaped(fs, Log(sb))
  {
    var l := Locate(bid, Entries(sb));
    LocateIndex(bid, Entries(sb));
    if l.Beyond? || l.Direct? then true
    else
      PathFits(l, Entries(sb));
      var p := ino.block[Slot(l)];
      p == 0 || p as nat >= |fs| || Sound(fs, sb, bgd, p, PathOf(l))
  }

  /**
   * What `allocate_data(in, bid)` promises when it returns inode ino' and image
   * fs': bid resolves, through non-zero allocated pointers, to a block that was
   * free before. Only the slot of bid may change in the inode, and an
   * indirect slot only when it was zero. The reserved blocks stay reserved,
   * no block is freed, and no allocated block changes but bitmap blocks and
   * the spine.
   */
  predicate Allocated(fs: Image, fs': Image, sb: SuperBlock, bgd: seq<GroupDesc>, ino: Inode, ino': Inode, bid: nat)
    requires Geometry(sb, bgd) && Shaped(fs, Log(sb)) && Shaped(fs', Log(sb))
  {
    var l := Locate(bid, Entries(sb));
    && !l.Beyond? && Slot(l) < N_BLOCK_PTRS
    && Resolve(fs', sb, bgd, ino', bid).Some?
    && FreeIn(fs, sb, bgd, Resolve(fs', sb, bgd, ino', bid).value)
    && (forall j | 0 <= j < N_BLOCK_PTRS && j != Slot(l) :: ino'.block[j] == ino.block[j])
    && (ino.block[Slot(l)] != 0 && !l.Direct? ==> ino'.block[Slot(l)] == ino.block[Slot(l)])
    && Reserved(fs', sb, bgd) && Grows(fs, fs', sb, bgd) && Kept(fs, fs', sb, bgd, Spine(fs, sb, ino, bid))
  }

  /**
   * On a sound spine with the reserved blocks marked, a successful
   * `allocate_data` keeps its promise.
   */
  lemma AllocateResolves(fs: Image, sb: SuperBlock, bgd: seq<GroupDesc>, ino: Inode, bid: nat)
    requires Geometry(sb, bgd) && Shaped(fs, Log(sb)) && Reserved(fs, sb, bgd)
    requires bid < AddressLimit(Entries(sb)) && SpineSound(fs, sb, bgd, ino, bid)
    requires AllocateData(fs, sb, bgd, ino, bid).Some?
    ensures var (ino', fs') := AllocateData(fs, sb, bgd, ino, bid).value;
      Allocated(fs, fs', sb, bgd, ino, ino', bid)
  {
    var e := Entries(sb);
    var l := Locate(bid, e);
    LocateIndex(bid, e);
    PathFits(l, e);
    if l.Direct? {
      AllocateDirect(fs, sb, bgd, ino, bid);
    } else if ino.block[Slot(l)] == 0 {
      AllocateNewSlot(fs, sb, bgd, ino, bid);
    } else {
      AllocateOldSlot(fs, sb, bgd, ino, bid);
    }
  }

  /** AllocateResolves for a direct slot. */
  lemma AllocateDirect(fs: Image, sb: SuperBlock, bgd: seq<GroupDesc>, ino: Inode, bid: nat)
    requires Geometry(sb, bgd) && Shaped(fs, Log(sb)) && Reserved(fs, sb, bgd)
    requires Locate(bid, Entries(sb)).Direct? && AllocateData(fs, sb, bgd, ino, bid).Some?
    ensures var (ino', fs') := AllocateData(fs, sb, bgd, ino, bid).value;
      Allocated(fs, fs', sb, bgd, ino, ino', bid)
  {
    var l := Locate(bid, Entries(sb));
    LocateIndex(bid, Entries(sb));
    PathFits(l, Entries(sb));
    IdleFacts(fs, sb, bgd);
    var (q, fs1) := IdleBlock(fs, sb, bgd);
    var (ino', fs') := AllocateData(fs, sb, bgd, ino, bid).value;
    assert fs' == fs1 && ino'.block[Slot(l)] == q.value;
    assert Spine(fs, sb, ino, bid) == [];
  }

  /** AllocateResolves for a zero indirect slot, which gets a fresh top block. */
  lemma AllocateNewSlot(fs: Image, sb: SuperBlock, bgd: seq<GroupDesc>, ino: Inode, bid: nat)
    requires Geometry(sb, bgd) && Shaped(fs, Log(sb)) && Reserved(fs, sb, bgd)
    requires var l := Locate(bid, Entries(sb));
      !l.Beyond? && !l.Direct? && Slot(l) < N_BLOCK_PTRS && ino.block[Slot(l)] == 0
    requires AllocateData(fs, sb, bgd, ino, bid).Some?
    ensures var (ino', fs') := AllocateData(fs, sb, bgd, ino, bid).value;
      Allocated(fs, fs', sb, bgd, ino, ino', bid)
  {
    var l := Locate(bid, Entries(sb));
    LocateIndex(bid, Entries(sb));
    PathFits(l, Entries(sb));
    IdleFacts(fs, sb, bgd);
    var (q, fs1) := IdleBlock(fs, sb, bgd);
    var (ino', fs') := AllocateData(fs, sb, bgd, ino, bid).value;
    ZeroChain(fs1, sb, q.value, PathOf(l));
    assert Sound(fs1, sb, bgd, q.value, PathOf(l));
    DescendSpec(fs1, sb, bgd, q.value, PathOf(l), true);
    assert ino' == ino.(block := ino.block[Slot(l) := q.value]);
    assert [q.value] + Chain(fs1, sb, q.value, PathOf(l)) == [q.value];
    NewSlotTail(fs, fs1, fs', sb, bgd, ino, bid, q.value);
  }

  /** The step from the fresh top block to the end of AllocateNewSlot. */
  lemma NewSlotTail(fs: Image, fs1: Image, fs': Image, sb: SuperBlock, bgd: seq<GroupDesc>, ino: Inode, bid: nat, q: u32)
    requires Geometry(sb, bgd) && Shaped(fs, Log(sb)) && Shaped(fs1, Log(sb)) && Shaped(fs', Log(sb))
    requires var l := Locate(bid, Entries(sb));
      !l.Beyond? && !l.Direct? && Slot(l) < N_BLOCK_PTRS && ino.block[Slot(l)] == 0 && PathInBlock(sb, PathOf(l))
    requires forall x: u32 | x as nat < |fs| && x != q && NotBitmap(bgd, x) :: fs1[x] == fs[x]
    requires Grows(fs, fs1, sb, bgd) && FreeIn(fs, sb, bgd, q)
    requires Reserved(fs', sb, bgd) && Grows(fs1, fs', sb, bgd) && Kept(fs1, fs', sb, bgd, [q])
    requires var l := Locate(bid, Entries(sb));
      Walk(fs', sb, bgd, q, PathOf(l)).Some? && FreeIn(fs1, sb, bgd, Walk(fs', sb, bgd, q, PathOf(l)).value)
    ensures var l := Locate(bid, Entries(sb));
      Allocated(fs, fs', sb, bgd, ino, ino.(block := ino.block[Slot(l) := q]), bid)
  {
    var l := Locate(bid, Entries(sb));
    assert Spine(fs, sb, ino, bid) == [];
    assert Kept(fs, fs1, sb, bgd, []);
    KeptTrans(fs, fs1, fs', sb, bgd, [], [q]);
    GrowsTrans(fs, fs1, fs', sb, bgd);
  }

  /** AllocateResolves for a non-zero indirect slot, whose spine is followed. */
  lemma AllocateOldSlot(fs: Image, sb: SuperBlock, bgd: seq<GroupDesc>, ino: Inode, bid: nat)
    requires Geometry(sb, bgd) && Shaped(fs, Log(sb)) && Reserved(fs, sb, bgd) && SpineSound(fs, sb, bgd, ino, bid)
    requires var l := Locate(bid, Entries(sb));
      !l.Beyond? && !l.Direct? && Slot(l) < N_BLOCK_PTRS && ino.block[Slot(l)] != 0
    requires AllocateData(fs, sb, bgd, ino, bid).Some?
    ensures var (ino', fs') := AllocateData(fs, sb, bgd, ino, bid).value;
      Allocated(fs, fs', sb, bgd, ino, ino', bid)
  {
    var l := Locate(bid, Entries(sb));
    LocateIndex(bid, Entries(sb));
    PathFits(l, Entries(sb));
    var p := ino.block[Slot(l)];
    assert Spine(fs, sb, ino, bid) == [p] + Chain(fs, sb, p, PathOf(l));
    DescendSpec(fs, sb, bgd, p, PathOf(l), false);
  }

  /**
   * With no free block left, `allocate_data` aborts (the assertion in
   * `getIdleBlock` fails) for every index it serves.
   */
  lemma {:induction false} AllocateFull(fs: Image, sb: SuperBlock, bgd: seq<GroupDesc>, ino: Inode, bid: nat)
    requires Geometry(sb, bgd) && Shaped(fs, Log(sb)) && FirstFree(fs, sb, bgd).None?
    ensures AllocateData(fs, sb, bgd, ino, bid).None? <==> bid < AddressLimit(Entries(sb))
  {
    IdleBlockSpec(fs, sb, bgd);
    var e := Entries(sb);
    var l := Locate(bid, e);
    LocateIndex(bid, e);
    if !l.Beyond? && !l.Direct? && ino.block[Slot(l)] != 0 && ino.block[Slot(l)] as nat < |fs| {
      PathFits(l, e);
      DescendFull(fs, sb, bgd, ino.block[Slot(l)], PathOf(l), false);
    }
  }

  /** DescendFull: the descent reaches `getIdleBlock` with the image unchanged. */
  lemma {:induction false} DescendFull(fs: Image, sb: SuperBlock, bgd: seq<GroupDesc>, at: u32, path: seq<nat>, made: bool)
    requires Geometry(sb, bgd) && Shaped(fs, Log(sb)) && PathInBlock(sb, path) && |path| > 0
    requires at as nat < |fs| && FirstFree(fs, sb, bgd).None?
    ensures Descend(fs, sb, bgd, fs[at], at, path, made).None?
    decreases |path|
  {
    IdleBlockSpec(fs, sb, bgd);
    EntryInBlock(sb, path[0]);
    if |path| > 1 && WordAt(fs[at], path[0]) != 0 && WordAt(fs[at], path[0]) as nat < |fs| {
      var p := WordAt(fs[at], path[0]);
      assert fs[at := fs[at]] == fs;
      DescendFull(fs, sb, bgd, p, path[1..], false);
    }
  }
}
