/**
 * Translation of a file's logical block index into a filesystem block through
 * `i_block`: 12 direct pointers, then one single-, one double- and one
 * triple-indirect pointer, each indirect block holding E = (1024 << log) / 4
 * little-endian pointers. Every pointer followed must be non-zero and marked
 * allocated in the block bitmap; otherwise the source's assertion aborts, which
 * the model reports as None.
 */
module Addressing {
  import opened Bytes
  import opened Device
  import opened Ext2
  import opened Blocks
  import opened Arith

  // ---------------------------------------------------------------------
  // Ranges of logical block indices
  // ---------------------------------------------------------------------

  /** Where a logical block index is found: the entry indices at each level. */
  datatype Loc =
    | Direct(k: nat)
    | Single(k1: nat)
    | Double(k1: nat, k2: nat)
    | Triple(k1: nat, k2: nat, k3: nat)
    | Beyond

  /** First logical index served by the double- and the triple-indirect pointer. */
  function DoubleStart(e: nat): nat { NDIRECT_BLOCK + N1INDIRECT_BLOCK * e }
  function TripleStart(e: nat): nat { DoubleStart(e) + N2INDIRECT_BLOCK * Mul(e, e) }
  /** The first logical index that no pointer reaches. */
  function AddressLimit(e: nat): nat { TripleStart(e) + N3INDIRECT_BLOCK * Mul(Mul(e, e), e) }

  /** The range tests and index splits of `read_inode_data_helper`, with E entries per block. */
  function Locate(bid: nat, e: nat): (r: Loc)
    requires e > 0
    ensures r.Direct? <==> bid < NDIRECT_BLOCK
    ensures r.Beyond? <==> bid >= AddressLimit(e)
  {
    if bid < NDIRECT_BLOCK then Direct(bid)
    else if bid < DoubleStart(e) then Single(bid - NDIRECT_BLOCK)
    else if bid < TripleStart(e) then
      var l := bid - DoubleStart(e);
      Double(Div(l, e), Mod(l, e))
    else if bid < AddressLimit(e) then
      var l := bid - TripleStart(e);
      Triple(Div(Div(l, e), e), Mod(Div(l, e), e), Mod(l, e))
    else Beyond
  }

  /** Every entry index is inside its block, and a direct index is a direct slot. */
  predicate Fits(l: Loc, e: nat)
  {
    match l
    case Direct(k) => k < NDIRECT_BLOCK
    case Single(k1) => k1 < e
    case Double(k1, k2) => k1 < e && k2 < e
    case Triple(k1, k2, k3) => k1 < e && k2 < e && k3 < e
    case Beyond => true
  }

  /** The logical block index a location stands for: the inverse of `Locate`. */
  function Index(l: Loc, e: nat): (r: nat)
    requires !l.Beyond?
    ensures !l.Direct? ==> r >= NDIRECT_BLOCK
  {
    match l
    case Direct(k) => k
    case Single(k1) => NDIRECT_BLOCK + k1
    case Double(k1, k2) => DoubleStart(e) + Mul(k1, e) + k2
    case Triple(k1, k2, k3) => TripleStart(e) + Mul(Mul(k1, e) + k2, e) + k3
  }

  /**
   * Every index below the limit is located inside the blocks and located
   * exactly; every index from the limit on is beyond reach.
   */
  lemma LocateIndex(bid: nat, e: nat)
    requires e > 0
    ensures Fits(Locate(bid, e), e)
    ensures Locate(bid, e).Beyond? <==> bid >= AddressLimit(e)
    ensures !Locate(bid, e).Beyond? ==> Index(Locate(bid, e), e) == bid
  {
    if TripleStart(e) <= bid < AddressLimit(e) {
      var l := bid - TripleStart(e);
      SplitThree(l, e);
    } else if DoubleStart(e) <= bid < TripleStart(e) {
      var l := bid - DoubleStart(e);
      SplitTwo(l, e);
    }
  }

  /** Every location inside the blocks is where its index is found. */
  lemma IndexLocate(l: Loc, e: nat)
    requires e > 0 && Fits(l, e) && !l.Beyond?
    ensures Locate(Index(l, e), e) == l
  {
    match l
    case Direct(k) =>
    case Single(k1) =>
    case Double(k1, k2) =>
      JoinTwo(k1, k2, e);
    case Triple(k1, k2, k3) =>
      JoinTwo(k1, k2, e);
      var m := Mul(k1, e) + k2;
      JoinThree(m, k3, e);
      DivModUnique(Mul(m, e) + k3, e, m, k3);
      DivModUnique(m, e, k1, k2);
  }

  lemma SplitTwo(l: nat, e: nat)
    requires e > 0 && l < Mul(e, e)
    ensures Div(l, e) < e && l == Mul(Div(l, e), e) + Mod(l, e)
  {
    DivMod(l, e);
    if Div(l, e) >= e {
      MulMono(e, Div(l, e), e);
    }
  }

  lemma SplitThree(l: nat, e: nat)
    requires e > 0 && l < Mul(Mul(e, e), e)
    ensures Div(l, e) < Mul(e, e) && Div(Div(l, e), e) < e
    ensures l == Mul(Mul(Div(Div(l, e), e), e) + Mod(Div(l, e), e), e) + Mod(l, e)
  {
    DivMod(l, e);
    if Div(l, e) >= Mul(e, e) {
      MulMono(Mul(e, e), Div(l, e), e);
    }
    SplitTwo(Div(l, e), e);
  }

  lemma JoinTwo(k1: nat, k2: nat, e: nat)
    requires k1 < e && k2 < e
    ensures Mul(k1, e) + k2 < Mul(e, e)
    ensures Div(Mul(k1, e) + k2, e) == k1 && Mod(Mul(k1, e) + k2, e) == k2
  {
    MulMono(k1, e - 1, e);
    DivModUnique(Mul(k1, e) + k2, e, k1, k2);
  }

  lemma JoinThree(m: nat, k3: nat, e: nat)
    requires m < Mul(e, e) && k3 < e
    ensures Mul(m, e) + k3 < Mul(Mul(e, e), e)
  {
    MulMono(m, Mul(e, e) - 1, e);
  }

  /** The `i_block` slot a location starts from. */
  function Slot(l: Loc): nat
    requires !l.Beyond?
  {
    match l
    case Direct(k) => k
    case Single(_) => SINGLE_SLOT
    case Double(_, _) => DOUBLE_SLOT
    case Triple(_, _, _) => TRIPLE_SLOT
  }

  /** The entry indices followed from that slot, outermost first. */
  function PathOf(l: Loc): seq<nat>
  {
    match l
    case Direct(_) => []
    case Single(k1) => [k1]
    case Double(k1, k2) => [k1, k2]
    case Triple(k1, k2, k3) => [k1, k2, k3]
    case Beyond => []
  }

  /** Paths are as deep as their level, and their indices fit an indirect block. */
  lemma PathFits(l: Loc, e: nat)
    requires Fits(l, e) && !l.Beyond?
    ensures Slot(l) < N_BLOCK_PTRS
    ensures Slot(l) < NDIRECT_BLOCK <==> l.Direct?
    ensures l.Triple? <==> Slot(l) == N_BLOCK_PTRS - 1
    ensures forall i | 0 <= i < |PathOf(l)| :: PathOf(l)[i] < e
    ensures |PathOf(l)| == if l.Direct? then 0 else Slot(l) - NDIRECT_BLOCK + 1
  {
  }

  // ---------------------------------------------------------------------
  // Following pointers
  // ---------------------------------------------------------------------

  /** A pointer the helpers follow without aborting: non-zero and marked allocated. */
  predicate Usable(fs: Image, sb: SuperBlock, bgd: seq<GroupDesc>, p: u32)
    requires Geometry(sb, bgd) && Shaped(fs, Log(sb))
  {
    p != 0 && Taggable(sb, bgd, p) && BlockState(fs, sb, bgd, p)
  }

  /** Entry k of an indirect block lies inside the block. */
  lemma EntryInBlock(sb: SuperBlock, k: nat)
    requires k < Entries(sb)
    ensures 4 * k + 4 <= BlockBytes(Log(sb))
  {
  }

  /** Pointer path indices all fit an indirect block. */
  predicate PathInBlock(sb: SuperBlock, path: seq<nat>)
  {
    forall i | 0 <= i < |path| :: path[i] < Entries(sb)
  }

  /**
   * Starting from pointer p, checks it, and while indices remain reads the
   * block and takes the pointer at the next index; yields the last pointer.
   */
  function Walk(fs: Image, sb: SuperBlock, bgd: seq<GroupDesc>, p: u32, path: seq<nat>): (r: Option<u32>)
    requires Geometry(sb, bgd) && Shaped(fs, Log(sb)) && PathInBlock(sb, path)
    ensures r.Some? ==> r.value < sb.blocksCount
    decreases |path|
  {
    if !Usable(fs, sb, bgd, p) then None
    else if path == [] then Some(p)
    else
      EntryInBlock(sb, path[0]);
      Walk(fs, sb, bgd, WordAt(fs[p], path[0]), path[1..])
  }

  /**
   * The filesystem blocks a successful walk reads: the bitmap block of every
   * pointer it checks, and every indirect block it reads (not the final block).
   */
  function WalkReads(fs: Image, sb: SuperBlock, bgd: seq<GroupDesc>, p: u32, path: seq<nat>): set<nat>
    requires Geometry(sb, bgd) && Shaped(fs, Log(sb)) && PathInBlock(sb, path)
    requires Walk(fs, sb, bgd, p, path).Some?
    decreases |path|
  {
    if path == [] then {BitmapBlock(sb, bgd, p)}
    else
      EntryInBlock(sb, path[0]);
      {BitmapBlock(sb, bgd, p), p as nat} + WalkReads(fs, sb, bgd, WordAt(fs[p], path[0]), path[1..])
  }

  /** Two images that agree on every filesystem block of s. */
  predicate Agree(fs: Image, fs': Image, s: set<nat>)
  {
    |fs| == |fs'| && forall x | x in s && x < |fs| :: fs[x] == fs'[x]
  }

  /** A walk depends only on the blocks it reads. */
  lemma {:induction false} WalkFrame(fs: Image, fs': Image, sb: SuperBlock, bgd: seq<GroupDesc>, p: u32, path: seq<nat>)
    requires Geometry(sb, bgd) && Shaped(fs, Log(sb)) && Shaped(fs', Log(sb)) && PathInBlock(sb, path)
    requires Walk(fs, sb, bgd, p, path).Some?
    requires Agree(fs, fs', WalkReads(fs, sb, bgd, p, path))
    ensures Walk(fs', sb, bgd, p, path) == Walk(fs, sb, bgd, p, path)
    ensures WalkReads(fs', sb, bgd, p, path) == WalkReads(fs, sb, bgd, p, path)
    decreases |path|
  {
    var bm := BitmapBlock(sb, bgd, p);
    assert fs[bm] == fs'[bm];
    assert Usable(fs', sb, bgd, p);
    if path != [] {
      EntryInBlock(sb, path[0]);
      assert fs[p] == fs'[p];
      var q := WordAt(fs[p], path[0]);
      assert Walk(fs, sb, bgd, p, path) == Walk(fs, sb, bgd, q, path[1..]);
      assert WalkReads(fs, sb, bgd, p, path) == {bm, p as nat} + WalkReads(fs, sb, bgd, q, path[1..]);
      WalkFrame(fs, fs', sb, bgd, q, path[1..]);
    }
  }

  /** Writing one block that a walk does not read leaves the walk as it was. */
  lemma WalkAfterWrite(fs: Image, sb: SuperBlock, bgd: seq<GroupDesc>, p: u32, path: seq<nat>, b: nat, data: seq<byte>)
    requires Geometry(sb, bgd) && Shaped(fs, Log(sb)) && PathInBlock(sb, path)
    requires Walk(fs, sb, bgd, p, path).Some?
    requires b < |fs| && |data| == BlockBytes(Log(sb)) && b !in WalkReads(fs, sb, bgd, p, path)
    ensures Walk(fs[b := data], sb, bgd, p, path) == Walk(fs, sb, bgd, p, path)
    ensures WalkReads(fs[b := data], sb, bgd, p, path) == WalkReads(fs, sb, bgd, p, path)
  {
    WalkFrame(fs, fs[b := data], sb, bgd, p, path);
  }

  // ---------------------------------------------------------------------
  // Resolving a logical block of an inode
  // ---------------------------------------------------------------------

  /**
   * The filesystem block holding logical block bid of the file, as both data
   * helpers find it; None where they abort (a zero or unallocated pointer on
   * the way, or an index beyond the triple-indirect range).
   */
  function Resolve(fs: Image, sb: SuperBlock, bgd: seq<GroupDesc>, ino: Inode, bid: nat): (r: Option<u32>)
    requires Geometry(sb, bgd) && Shaped(fs, Log(sb))
    ensures r.Some? ==> r.value < sb.blocksCount
  {
    var l := Locate(bid, Entries(sb));
    if l.Beyond? then None
    else
      LocateIndex(bid, Entries(sb));
      PathFits(l, Entries(sb));
      Walk(fs, sb, bgd, ino.block[Slot(l)], PathOf(l))
  }

  /** The blocks that resolving bid reads. */
  function ResolveReads(fs: Image, sb: SuperBlock, bgd: seq<GroupDesc>, ino: Inode, bid: nat): set<nat>
    requires Geometry(sb, bgd) && Shaped(fs, Log(sb)) && Resolve(fs, sb, bgd, ino, bid).Some?
  {
    var l := Locate(bid, Entries(sb));
    LocateIndex(bid, Entries(sb));
    PathFits(l, Entries(sb));
    WalkReads(fs, sb, bgd, ino.block[Slot(l)], PathOf(l))
  }

  /** Resolution fails beyond the triple-indirect range, whatever the pointers. */
  lemma ResolveBeyond(fs: Image, sb: SuperBlock, bgd: seq<GroupDesc>, ino: Inode, bid: nat)
    requires Geometry(sb, bgd) && Shaped(fs, Log(sb)) && bid >= AddressLimit(Entries(sb))
    ensures Resolve(fs, sb, bgd, ino, bid).None?
  {
    LocateIndex(bid, Entries(sb));
  }

  /** Resolution depends only on the blocks it reads. */
  lemma ResolveFrame(fs: Image, fs': Image, sb: SuperBlock, bgd: seq<GroupDesc>, ino: Inode, bid: nat)
    requires Geometry(sb, bgd) && Shaped(fs, Log(sb)) && Shaped(fs', Log(sb)) && Resolve(fs, sb, bgd, ino, bid).Some?
    requires Agree(fs, fs', ResolveReads(fs, sb, bgd, ino, bid))
    ensures Resolve(fs', sb, bgd, ino, bid) == Resolve(fs, sb, bgd, ino, bid)
    ensures ResolveReads(fs', sb, bgd, ino, bid) == ResolveReads(fs, sb, bgd, ino, bid)
  {
    var l := Locate(bid, Entries(sb));
    LocateIndex(bid, Entries(sb));
    PathFits(l, Entries(sb));
    WalkFrame(fs, fs', sb, bgd, ino.block[Slot(l)], PathOf(l));
  }

  /** Writing a block that resolving bid does not read leaves the resolution and what it reads as they were. */
  lemma ResolveAfterWrite(fs: Image, sb: SuperBlock, bgd: seq<GroupDesc>, ino: Inode, bid: nat, b: nat, data: seq<byte>)
    requires Geometry(sb, bgd) && Shaped(fs, Log(sb)) && Resolve(fs, sb, bgd, ino, bid).Some?
    requires b < |fs| && |data| == BlockBytes(Log(sb)) && b !in ResolveReads(fs, sb, bgd, ino, bid)
    ensures Resolve(fs[b := data], sb, bgd, ino, bid) == Resolve(fs, sb, bgd, ino, bid)
    ensures ResolveReads(fs[b := data], sb, bgd, ino, bid) == ResolveReads(fs, sb, bgd, ino, bid)
  {
    ResolveFrame(fs, fs[b := data], sb, bgd, ino, bid);
  }

  /**
   * The resolution of a file as a function of the image: the helpers consult
   * it for the image as it is when they run.
   */
  function Resolution(sb: SuperBlock, bgd: seq<GroupDesc>, ino: Inode): Image -> nat -> Option<u32>
  {
    (fs: Image) => (bid: nat) =>
      if Geometry(sb, bgd) && Shaped(fs, Log(sb)) then Resolve(fs, sb, bgd, ino, bid) else None
  }

  /** On a well-formed image the resolution is Resolve, and every block it yields is in the image. */
  lemma ResolutionIs(fs: Image, sb: SuperBlock, bgd: seq<GroupDesc>, ino: Inode, bid: nat)
    requires Geometry(sb, bgd) && Shaped(fs, Log(sb))
    ensures Resolution(sb, bgd, ino)(fs)(bid) == Resolve(fs, sb, bgd, ino, bid)
    ensures Resolve(fs, sb, bgd, ino, bid).Some? ==> Resolve(fs, sb, bgd, ino, bid).value as nat < |fs|
  {
  }

  // ---------------------------------------------------------------------
  // Block-bounded chunks
  // ---------------------------------------------------------------------

  /** The logical block holding byte off of a file, `offset / block_size`. */
  function BlockOf(bs: nat, off: nat): nat
    requires bs > 0
  {
    Div(off, bs)
  }

  /** The position of byte off inside its block, `offset % block_size`. */
  function InBlock(bs: nat, off: nat): (lo: nat)
    requires bs > 0
    ensures lo < bs
  {
    Mod(off, bs)
  }

  /** A chunk that stays inside one block, the assertion both helpers open with. */
  predicate InOneBlock(bs: nat, off: nat, size: nat)
    requires bs > 0
  {
    size + InBlock(bs, off) <= bs
  }

  /** The size bytes at position lo of filesystem block b. */
  function ReadIn(fs: Image, b: nat, lo: nat, size: nat): (r: seq<byte>)
    requires b < |fs| && lo + size <= |fs[b]|
    ensures |r| == size
  {
    fs[b][lo..lo + size]
  }

  /** The image with data copied over filesystem block b from position lo. */
  function WriteIn(fs: Image, b: nat, lo: nat, data: seq<byte>): (d: Image)
    requires b < |fs| && lo + |data| <= |fs[b]|
    ensures |d| == |fs| && |d[b]| == |fs[b]|
    ensures ReadIn(d, b, lo, |data|) == data
    ensures forall i | 0 <= i < |fs[b]| && !(lo <= i < lo + |data|) :: d[b][i] == fs[b][i]
    ensures forall x | 0 <= x < |fs| && x != b :: d[x] == fs[x]
  {
    fs[b := Splice(fs[b], lo, data)]
  }

  /**
   * `read_inode_data_helper(in, dst, off, size)` with res the file's
   * resolution: the size bytes at off of the file, None where resolution
   * aborts. The source copies min(size, bs - off % bs) bytes, which is size
   * under its opening assertion. A block outside the image, which the
   * resolution of a file never yields, reads as an abort.
   */
  function ReadChunk(res: nat -> Option<u32>, fs: Image, bs: nat, off: nat, size: nat): (r: Option<seq<byte>>)
    requires bs > 0 && Sized(fs, bs) && InOneBlock(bs, off, size)
    ensures r.Some? <==> res(BlockOf(bs, off)).Some? && res(BlockOf(bs, off)).value as nat < |fs|
    ensures r.Some? ==> r.value == fs[res(BlockOf(bs, off)).value][InBlock(bs, off)..InBlock(bs, off) + size]
  {
    match res(BlockOf(bs, off))
    case None => None
    case Some(b) => if b as nat < |fs| then Some(ReadIn(fs, b, InBlock(bs, off), size)) else None
  }

  /**
   * `write_inode_data_helper(in, src, off, |data|)` with res the file's
   * resolution: the image with data copied over the file at off. Only the
   * resolved block changes, and in it only the bytes given.
   */
  function WriteChunk(res: nat -> Option<u32>, fs: Image, bs: nat, off: nat, data: seq<byte>): (r: Option<Image>)
    requires bs > 0 && Sized(fs, bs) && InOneBlock(bs, off, |data|)
    ensures r.Some? <==> res(BlockOf(bs, off)).Some? && res(BlockOf(bs, off)).value as nat < |fs|
    ensures r.Some? ==> |r.value| == |fs| && Sized(r.value, bs)
    ensures r.Some? ==>
      var b := res(BlockOf(bs, off)).value;
      var lo := InBlock(bs, off);
      && r.value[b][lo..lo + |data|] == data
      && (forall i | 0 <= i < bs && !(lo <= i < lo + |data|) :: r.value[b][i] == fs[b][i])
      && forall x | 0 <= x < |fs| && x != b as nat :: r.value[x] == fs[x]
  {
    match res(BlockOf(bs, off))
    case None => None
    case Some(b) => if b as nat < |fs| then Some(WriteIn(fs, b, InBlock(bs, off), data)) else None
  }

  /**
   * A chunk of a file written and read back at the same offset is the data
   * written, unless the resolved block is itself one of the blocks resolution reads.
   */
  lemma ChunkRoundTrip(fs: Image, sb: SuperBlock, bgd: seq<GroupDesc>, ino: Inode, off: nat, data: seq<byte>)
    requires Geometry(sb, bgd) && Shaped(fs, Log(sb)) && InOneBlock(BlockBytes(Log(sb)), off, |data|)
    requires Resolve(fs, sb, bgd, ino, BlockOf(BlockBytes(Log(sb)), off)).Some?
    requires Resolve(fs, sb, bgd, ino, BlockOf(BlockBytes(Log(sb)), off)).value
      !in ResolveReads(fs, sb, bgd, ino, BlockOf(BlockBytes(Log(sb)), off))
    ensures var res := Resolution(sb, bgd, ino);
      && WriteChunk(res(fs), fs, BlockBytes(Log(sb)), off, data).Some?
      && var fs' := WriteChunk(res(fs), fs, BlockBytes(Log(sb)), off, data).value;
         ReadChunk(res(fs'), fs', BlockBytes(Log(sb)), off, |data|) == Some(data)
  {
    var bs := BlockBytes(Log(sb));
    var bid := BlockOf(bs, off);
    var b := Resolve(fs, sb, bgd, ino, bid).value;
    ResolutionIs(fs, sb, bgd, ino, bid);
    var fs' := fs[b := Splice(fs[b], InBlock(bs, off), data)];
    ResolveAfterWrite(fs, sb, bgd, ino, bid, b, Splice(fs[b], InBlock(bs, off), data));
    ResolutionIs(fs', sb, bgd, ino, bid);
  }
}
