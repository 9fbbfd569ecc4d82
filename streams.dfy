/**
 * `read_inode_data` and `write_inode_data`: a byte range of a file is moved in
 * chunks that each end at the next block boundary or at the end of the range,
 * one helper call per chunk.
 */
module Streams {
  import opened Bytes
  import opened Device
  import opened Ext2
  import opened Blocks
  import opened Arith
  import opened Addressing

  /** The next multiple of bs above cur is bs - cur % bs bytes away. */
  lemma NextBoundary(cur: nat, bs: nat)
    requires bs > 0
    ensures Mul(Div(cur + bs, bs), bs) == cur - Mod(cur, bs) + bs
    ensures Div(cur + bs, bs) == Div(cur, bs) + 1
  {
    DivMod(cur, bs);
    DivModUnique(cur + bs, bs, Div(cur, bs) + 1, Mod(cur, bs));
  }

  /**
   * The chunk length both loops use at cur with `remaining` bytes left:
   * the rest of the range, or the rest of the block holding cur.
   */
  function ChunkLen(bs: nat, cur: nat, remaining: nat): (c: nat)
    requires bs > 0
    ensures c <= remaining && (remaining > 0 ==> c > 0)
    ensures InOneBlock(bs, cur, c)
  {
    Min(remaining, bs - InBlock(bs, cur))
  }

  /**
   * The source writes the chunk length as `min(remaining, next_boundary - cur)`
   * with next_boundary `(cur + bs) / bs * bs`; that is the length above.
   */
  lemma ChunkLenBoundary(bs: nat, cur: nat, remaining: nat)
    requires bs > 0
    ensures ChunkLen(bs, cur, remaining) == Min(remaining, Mul(Div(cur + bs, bs), bs) - cur)
  {
    NextBoundary(cur, bs);
  }

  /** A chunk that stops short of the end stops at a block boundary, so the next starts a new block. */
  lemma ChunkAdvance(bs: nat, cur: nat, remaining: nat)
    requires bs > 0 && ChunkLen(bs, cur, remaining) < remaining
    ensures InBlock(bs, cur + ChunkLen(bs, cur, remaining)) == 0
    ensures BlockOf(bs, cur + ChunkLen(bs, cur, remaining)) == BlockOf(bs, cur) + 1
  {
    NextBoundary(cur, bs);
    DivMod(cur, bs);
    DivModUnique(cur + ChunkLen(bs, cur, remaining), bs, Div(cur, bs) + 1, 0);
  }

  /** A chunk source: the n bytes at offset off of a file, None where the read aborts. */
  type Reader = nat -> nat -> Option<seq<byte>>

  /** A chunk sink: the image after writing bytes at an offset of a file, None where the write aborts. */
  type Writer = Image -> nat -> seq<byte> -> Option<Image>

  /**
   * `read_inode_data_helper` over resolution res of image fs: one chunk,
   * which must lie inside a block.
   */
  function ChunkReader(res: nat -> Option<u32>, fs: Image, bs: nat): Reader
  {
    (o: nat) => (n: nat) =>
      if bs > 0 && Sized(fs, bs) && InOneBlock(bs, o, n) then ReadChunk(res, fs, bs, o, n) else None
  }

  /**
   * `write_inode_data_helper` with r the file's resolution in each image: one
   * chunk, which must lie inside a block.
   */
  function ChunkWriter(r: Image -> nat -> Option<u32>, bs: nat): Writer
  {
    (fs: Image) => (o: nat) => (data: seq<byte>) =>
      if bs > 0 && Sized(fs, bs) && InOneBlock(bs, o, |data|) then WriteChunk(r(fs), fs, bs, o, data) else None
  }

  /**
   * One chunk written through a file's resolution: nothing where the chunk
   * crosses a block boundary or its block does not resolve, the bytes spliced
   * into the resolved block otherwise.
   */
  lemma DiskChunkWrite(fs: Image, sb: SuperBlock, bgd: seq<GroupDesc>, ino: Inode, off: nat, data: seq<byte>)
    requires Geometry(sb, bgd) && Shaped(fs, Log(sb))
    ensures var bs := BlockBytes(Log(sb));
      var w := ChunkWriter(Resolution(sb, bgd, ino), bs)(fs)(off)(data);
      var b := Resolve(fs, sb, bgd, ino, BlockOf(bs, off));
      && (InOneBlock(bs, off, |data|) && b.Some? ==>
            b.value as nat < |fs| && w == Some(fs[b.value as nat := Splice(fs[b.value], InBlock(bs, off), data)]))
      && (!InOneBlock(bs, off, |data|) || b.None? ==> w == None)
  {
    ResolutionIs(fs, sb, bgd, ino, BlockOf(BlockBytes(Log(sb)), off));
  }

  /**
   * `read_inode_data(in, dst, off, size)`, with rd the helper: the bytes
   * read, None where a helper call aborts.
   */
  function ReadStream(rd: Reader, bs: nat, off: nat, size: nat): (r: Option<seq<byte>>)
    requires bs > 0
    decreases size
  {
    if size == 0 then Some([])
    else
      var c := ChunkLen(bs, off, size);
      match rd(off)(c)
      case None => None
      case Some(d) =>
        match ReadStream(rd, bs, off + c, size - c)
        case None => None
        case Some(rest) => Some(d + rest)
  }

  /**
   * `write_inode_data(in, src, off, |data|)`, with wr the helper: the image
   * afterwards, None where a helper call aborts. Each chunk is written to the
   * image the earlier chunks left.
   */
  function WriteStream(wr: Writer, fs: Image, bs: nat, off: nat, data: seq<byte>): (d: Option<Image>)
    requires bs > 0
    decreases |data|
  {
    if |data| == 0 then Some(fs)
    else
      var c := ChunkLen(bs, off, |data|);
      match wr(fs)(off)(data[..c])
      case None => None
      case Some(fs1) => WriteStream(wr, fs1, bs, off + c, data[c..])
  }

  /**
   * The write loop from `written` = w on, as the source counts it: the chunk
   * at off + w, then the loop from the end of the chunk.
   */
  function WriteFrom(wr: Writer, fs: Image, bs: nat, off: nat, data: seq<byte>, w: nat): (d: Option<Image>)
    requires bs > 0 && w <= |data|
    decreases |data| - w
  {
    if w == |data| then Some(fs)
    else
      var c := ChunkLen(bs, off + w, |data| - w);
      match wr(fs)(off + w)(data[w..w + c])
      case None => None
      case Some(fs1) => WriteFrom(wr, fs1, bs, off, data, w + c)
  }

  /** Counting from w is writing the rest of the data at off + w. */
  lemma {:induction false} WriteFromStream(wr: Writer, fs: Image, bs: nat, off: nat, data: seq<byte>, w: nat)
    requires bs > 0 && w <= |data|
    ensures WriteFrom(wr, fs, bs, off, data, w) == WriteStream(wr, fs, bs, off + w, data[w..])
    decreases |data| - w
  {
    if w < |data| {
      var rest := data[w..];
      var c := ChunkLen(bs, off + w, |data| - w);
      assert rest[..c] == data[w..w + c];
      assert rest[c..] == data[w + c..];
      match wr(fs)(off + w)(data[w..w + c])
      case None =>
      case Some(fs1) =>
        WriteFromStream(wr, fs1, bs, off, data, w + c);
        assert off + w + c == off + (w + c);
    }
  }

  /** One turn of the read loop: a chunk, then the rest of the range. */
  lemma ReadStreamTurn(rd: Reader, bs: nat, off: nat, n: nat, d: seq<byte>, rest: seq<byte>)
    requires bs > 0 && n > 0
    requires rd(off)(ChunkLen(bs, off, n)) == Some(d)
    requires ReadStream(rd, bs, off + ChunkLen(bs, off, n), n - ChunkLen(bs, off, n)) == Some(rest)
    ensures ReadStream(rd, bs, off, n) == Some(d + rest)
  {
  }

  /** One turn of the write loop: a chunk, then the rest of the data on the image it left. */
  lemma WriteStreamTurn(wr: Writer, fs: Image, bs: nat, off: nat, data: seq<byte>, fs1: Image)
    requires bs > 0 && |data| > 0
    requires wr(fs)(off)(data[..ChunkLen(bs, off, |data|)]) == Some(fs1)
    ensures WriteStream(wr, fs, bs, off, data)
      == WriteStream(wr, fs1, bs, off + ChunkLen(bs, off, |data|), data[ChunkLen(bs, off, |data|)..])
  {
  }

  /** Every chunk read from the disk has the length asked for, so a whole read does too. */
  lemma {:induction false} ReadStreamLength(res: nat -> Option<u32>, fs: Image, bs: nat, off: nat, size: nat)
    requires bs > 0
    ensures ReadStream(ChunkReader(res, fs, bs), bs, off, size).Some? ==>
      |ReadStream(ChunkReader(res, fs, bs), bs, off, size).value| == size
    decreases size
  {
    if size > 0 {
      var c := ChunkLen(bs, off, size);
      ReadStreamLength(res, fs, bs, off + c, size - c);
    }
  }

  /** Writing chunks to a well-formed image leaves one of the same size and block length. */
  lemma {:induction false} WriteStreamShape(r: Image -> nat -> Option<u32>, fs: Image, bs: nat, off: nat, data: seq<byte>)
    requires bs > 0 && Sized(fs, bs)
    ensures var d := WriteStream(ChunkWriter(r, bs), fs, bs, off, data);
      d.Some? ==> Sized(d.value, bs) && |d.value| == |fs|
    decreases |data|
  {
    if |data| > 0 {
      var c := ChunkLen(bs, off, |data|);
      match WriteChunk(r(fs), fs, bs, off, data[..c])
      case None =>
      case Some(fs1) =>
        WriteStreamShape(r, fs1, bs, off + c, data[c..]);
    }
  }

  // ---------------------------------------------------------------------
  // The blocks a range is cut into
  // ---------------------------------------------------------------------

  /** The logical blocks the loops visit for the n bytes from off, one per chunk, in order. */
  function ChunkBlocks(bs: nat, off: nat, n: nat): (js: seq<nat>)
    requires bs > 0
    decreases n
  {
    if n == 0 then []
    else
      var c := ChunkLen(bs, off, n);
      [BlockOf(bs, off)] + ChunkBlocks(bs, off + c, n - c)
  }

  /** A chunk that is the whole rest of the range ends in the block it starts in. */
  lemma LastChunk(bs: nat, off: nat, n: nat)
    requires bs > 0 && n > 0 && ChunkLen(bs, off, n) == n
    ensures BlockOf(bs, off + n - 1) == BlockOf(bs, off)
  {
    DivMod(off, bs);
    DivModUnique(off + n - 1, bs, Div(off, bs), Mod(off, bs) + n - 1);
  }

  /**
   * The loops visit every logical block from the one holding off to the one
   * holding the last byte of the range, each once and in increasing order.
   */
  lemma {:induction false} ChunkBlocksConsecutive(bs: nat, off: nat, n: nat)
    requires bs > 0
    ensures |ChunkBlocks(bs, off, n)| == if n == 0 then 0 else BlockOf(bs, off + n - 1) - BlockOf(bs, off) + 1
    ensures forall k | 0 <= k < |ChunkBlocks(bs, off, n)| :: ChunkBlocks(bs, off, n)[k] == BlockOf(bs, off) + k
    decreases n
  {
    if n > 0 {
      var c := ChunkLen(bs, off, n);
      var js := ChunkBlocks(bs, off, n);
      var rest := ChunkBlocks(bs, off + c, n - c);
      assert js == [BlockOf(bs, off)] + rest;
      if c < n {
        ChunkAdvance(bs, off, n);
        ChunkBlocksConsecutive(bs, off + c, n - c);
        assert off + c + (n - c) - 1 == off + n - 1;
        forall k | 0 <= k < |js|
          ensures js[k] == BlockOf(bs, off) + k
        {
          if k > 0 {
            assert js[k] == rest[k - 1];
          }
        }
      } else {
        LastChunk(bs, off, n);
      }
    }
  }

  /** After the first chunk, the loops visit the blocks of the remaining range. */
  lemma ChunkBlocksRest(bs: nat, off: nat, n: nat)
    requires bs > 0 && n > 0
    ensures |ChunkBlocks(bs, off, n)| > 0 && ChunkBlocks(bs, off, n)[0] == BlockOf(bs, off)
    ensures ChunkBlocks(bs, off + ChunkLen(bs, off, n), n - ChunkLen(bs, off, n)) == ChunkBlocks(bs, off, n)[1..]
  {
    var c := ChunkLen(bs, off, n);
    assert ChunkBlocks(bs, off, n) == [BlockOf(bs, off)] + ChunkBlocks(bs, off + c, n - c);
  }

  // ---------------------------------------------------------------------
  // Where the chunks go
  // ---------------------------------------------------------------------

  /** Logical block js[k] resolves to filesystem block m[k], for every k. */
  predicate Follows(res: nat -> Option<u32>, js: seq<nat>, m: seq<u32>)
  {
    |m| == |js| && forall k | 0 <= k < |js| :: res(js[k]) == Some(m[k])
  }

  /** A placement that follows resolution from its second entry on follows the rest of the blocks. */
  lemma FollowsRest(res: nat -> Option<u32>, js: seq<nat>, m: seq<u32>)
    requires |js| > 0 && Follows(res, js, m)
    ensures res(js[0]) == Some(m[0])
    ensures Follows(res, js[1..], m[1..])
  {
    assert forall k | 0 <= k < |js| - 1 :: js[1..][k] == js[k + 1] && m[1..][k] == m[k + 1];
  }

  /** m holds one filesystem block per chunk of the range, each below blocks, the size of the image. */
  predicate Places(blocks: nat, bs: nat, m: seq<u32>, off: nat, n: nat)
    requires bs > 0
  {
    |m| == |ChunkBlocks(bs, off, n)| && forall k | 0 <= k < |m| :: m[k] as nat < blocks
  }

  /** No block is the place of two chunks. */
  predicate Distinct(m: seq<u32>)
  {
    forall k, k' | 0 <= k < k' < |m| :: m[k] != m[k']
  }

  /** Block x is the place of no chunk. */
  predicate Unplaced(m: seq<u32>, x: nat)
  {
    forall k | 0 <= k < |m| :: m[k] as nat != x
  }

  /** The places after the first are distinct, and none of them is the first. */
  lemma DistinctRest(m: seq<u32>)
    requires |m| > 0 && Distinct(m)
    ensures Distinct(m[1..]) && Unplaced(m[1..], m[0] as nat)
  {
    assert forall k | 0 <= k < |m| - 1 :: m[1..][k] == m[k + 1];
  }

  /** Image d is fs except perhaps at the places of m. */
  predicate Outside(d: Image, fs: Image, m: seq<u32>)
  {
    |d| == |fs| && forall x | 0 <= x < |fs| && Unplaced(m, x) :: d[x] == fs[x]
  }

  /**
   * Writing at the places of m does not move them: in every well-formed
   * image that is fs except at those places, js[k] still resolves to m[k].
   */
  ghost predicate Pinned(r: Image -> nat -> Option<u32>, fs: Image, bs: nat, js: seq<nat>, m: seq<u32>)
  {
    forall d: Image | Sized(d, bs) && Outside(d, fs, m) :: Follows(r(d), js, m)
  }

  /** A pinned placement stays pinned, for the rest of the blocks, once its first place is written. */
  lemma PinnedRest(r: Image -> nat -> Option<u32>, fs: Image, bs: nat, js: seq<nat>, m: seq<u32>, blk: seq<byte>)
    requires |js| > 0 && Pinned(r, fs, bs, js, m) && |m| == |js| && m[0] as nat < |fs|
    ensures Pinned(r, fs[m[0] as nat := blk], bs, js[1..], m[1..])
  {
    var fs1 := fs[m[0] as nat := blk];
    forall d: Image | Sized(d, bs) && Outside(d, fs1, m[1..])
      ensures Follows(r(d), js[1..], m[1..])
    {
      forall x | 0 <= x < |fs| && Unplaced(m, x)
        ensures d[x] == fs[x]
      {
        assert Unplaced(m[1..], x) by {
          assert forall k | 0 <= k < |m| - 1 :: m[1..][k] == m[k + 1];
        }
        assert m[0] as nat != x;
      }
      assert Outside(d, fs, m);
      FollowsRest(r(d), js, m);
    }
  }

  // ---------------------------------------------------------------------
  // The same loops over a fixed placement of the chunks
  // ---------------------------------------------------------------------

  /** After the first chunk, the places of the rest are the places of the remaining range. */
  lemma PlacesRest(blocks: nat, bs: nat, m: seq<u32>, off: nat, n: nat)
    requires bs > 0 && n > 0 && Places(blocks, bs, m, off, n)
    ensures |m| > 0 && m[0] as nat < blocks
    ensures Places(blocks, bs, m[1..], off + ChunkLen(bs, off, n), n - ChunkLen(bs, off, n))
  {
    ChunkBlocksRest(bs, off, n);
    assert forall k | 0 <= k < |m| - 1 :: m[1..][k] == m[k + 1];
  }

  /** The first turn of the placed write: the first chunk copied into block m[0]. */
  function WriteFirst(fs: Image, bs: nat, m: seq<u32>, off: nat, data: seq<byte>): (d: Image)
    requires bs > 0 && Sized(fs, bs) && |data| > 0 && |m| > 0 && m[0] as nat < |fs|
    ensures Sized(d, bs) && |d| == |fs|
    ensures ReadIn(d, m[0], InBlock(bs, off), ChunkLen(bs, off, |data|)) == data[..ChunkLen(bs, off, |data|)]
    ensures forall x | 0 <= x < |fs| && x != m[0] as nat :: d[x] == fs[x]
  {
    WriteIn(fs, m[0], InBlock(bs, off), data[..ChunkLen(bs, off, |data|)])
  }

  /** The write loop with chunk k going to block m[k]; it stops where m has no place in the image. */
  function WritePlaced(fs: Image, bs: nat, m: seq<u32>, off: nat, data: seq<byte>): (r: Image)
    requires bs > 0 && Sized(fs, bs)
    ensures |r| == |fs| && Sized(r, bs)
    decreases |data|
  {
    if |data| == 0 || |m| == 0 || m[0] as nat >= |fs| then fs
    else
      var c := ChunkLen(bs, off, |data|);
      WritePlaced(WriteFirst(fs, bs, m, off, data), bs, m[1..], off + c, data[c..])
  }

  /** The read loop with chunk k read from block m[k]; zeros where m has no place in the image. */
  function ReadPlaced(fs: Image, bs: nat, m: seq<u32>, off: nat, size: nat): (r: seq<byte>)
    requires bs > 0 && Sized(fs, bs)
    ensures |r| == size
    decreases size
  {
    if size == 0 then []
    else if |m| == 0 || m[0] as nat >= |fs| then Zeros(size)
    else
      var c := ChunkLen(bs, off, size);
      ReadIn(fs, m[0], InBlock(bs, off), c) + ReadPlaced(fs, bs, m[1..], off + c, size - c)
  }

  /** One turn of the placed read. */
  lemma ReadPlacedTurn(fs: Image, bs: nat, m: seq<u32>, off: nat, n: nat)
    requires bs > 0 && Sized(fs, bs) && n > 0 && |m| > 0 && m[0] as nat < |fs|
    ensures ReadPlaced(fs, bs, m, off, n)
      == ReadIn(fs, m[0], InBlock(bs, off), ChunkLen(bs, off, n)) + ReadPlaced(fs, bs, m[1..], off + ChunkLen(bs, off, n), n - ChunkLen(bs, off, n))
  {
  }

  /** One turn of the placed write. */
  lemma WritePlacedTurn(fs: Image, bs: nat, m: seq<u32>, off: nat, data: seq<byte>)
    requires bs > 0 && Sized(fs, bs) && |data| > 0 && |m| > 0 && m[0] as nat < |fs|
    ensures WritePlaced(fs, bs, m, off, data)
      == WritePlaced(WriteFirst(fs, bs, m, off, data), bs, m[1..],
                     off + ChunkLen(bs, off, |data|), data[ChunkLen(bs, off, |data|)..])
  {
  }

  /** The placed write changes no block that is not a place. */
  lemma {:induction false} WritePlacedFrame(fs: Image, bs: nat, m: seq<u32>, off: nat, data: seq<byte>)
    requires bs > 0 && Sized(fs, bs)
    ensures Outside(WritePlaced(fs, bs, m, off, data), fs, m)
    decreases |data|
  {
    if |data| > 0 && |m| > 0 && m[0] as nat < |fs| {
      var c := ChunkLen(bs, off, |data|);
      var fs1 := WriteFirst(fs, bs, m, off, data);
      WritePlacedFrame(fs1, bs, m[1..], off + c, data[c..]);
      forall x | 0 <= x < |fs| && Unplaced(m, x)
        ensures WritePlaced(fs, bs, m, off, data)[x] == fs[x]
      {
        assert Unplaced(m[1..], x) by {
          assert forall k | 0 <= k < |m| - 1 :: m[1..][k] == m[k + 1];
        }
        assert m[0] as nat != x;
      }
    }
  }

  /** Image d holds chunk k of data in block m[k], for every chunk of the range from off. */
  predicate Holds(d: Image, bs: nat, m: seq<u32>, off: nat, data: seq<byte>)
    requires bs > 0 && Sized(d, bs)
    decreases |data|
  {
    |data| == 0 ||
    (&& |m| > 0 && m[0] as nat < |d|
     && ReadIn(d, m[0], InBlock(bs, off), ChunkLen(bs, off, |data|)) == data[..ChunkLen(bs, off, |data|)]
     && Holds(d, bs, m[1..], off + ChunkLen(bs, off, |data|), data[ChunkLen(bs, off, |data|)..]))
  }

  /** One turn of Holds: the first chunk, then the rest of the range. */
  lemma HoldsTurn(d: Image, bs: nat, m: seq<u32>, off: nat, data: seq<byte>)
    requires bs > 0 && Sized(d, bs) && |data| > 0 && |m| > 0 && m[0] as nat < |d|
    requires ReadIn(d, m[0], InBlock(bs, off), ChunkLen(bs, off, |data|)) == data[..ChunkLen(bs, off, |data|)]
    requires Holds(d, bs, m[1..], off + ChunkLen(bs, off, |data|), data[ChunkLen(bs, off, |data|)..])
    ensures Holds(d, bs, m, off, data)
  {
  }

  /** Where the image holds the data, the placed read returns it. */
  lemma {:induction false} ReadHolds(d: Image, bs: nat, m: seq<u32>, off: nat, data: seq<byte>)
    requires bs > 0 && Sized(d, bs) && Holds(d, bs, m, off, data)
    ensures ReadPlaced(d, bs, m, off, |data|) == data
    decreases |data|
  {
    if |data| > 0 {
      var c := ChunkLen(bs, off, |data|);
      ReadHolds(d, bs, m[1..], off + c, data[c..]);
      ReadPlacedTurn(d, bs, m, off, |data|);
      SplitJoin(data, c);
    }
  }

  /** The first chunk written survives any writes that only touch the other places. */
  lemma PlacedHead(fs: Image, d: Image, bs: nat, m: seq<u32>, off: nat, data: seq<byte>)
    requires bs > 0 && Sized(fs, bs) && |data| > 0 && |m| > 0 && m[0] as nat < |fs|
    requires Unplaced(m[1..], m[0] as nat)
    requires Outside(d, WriteFirst(fs, bs, m, off, data), m[1..])
    ensures ReadIn(d, m[0], InBlock(bs, off), ChunkLen(bs, off, |data|)) == data[..ChunkLen(bs, off, |data|)]
  {
  }

  /** The first chunk is still in block m[0] after the placed write of the rest. */
  lemma WritePlacedHead(fs: Image, bs: nat, m: seq<u32>, off: nat, data: seq<byte>)
    requires bs > 0 && Sized(fs, bs) && |data| > 0 && |m| > 0 && m[0] as nat < |fs|
    requires Unplaced(m[1..], m[0] as nat)
    ensures var c := ChunkLen(bs, off, |data|);
      ReadIn(WritePlaced(WriteFirst(fs, bs, m, off, data), bs, m[1..], off + c, data[c..]), m[0], InBlock(bs, off), c)
        == data[..c]
  {
    var c := ChunkLen(bs, off, |data|);
    var fs1 := WriteFirst(fs, bs, m, off, data);
    WritePlacedFrame(fs1, bs, m[1..], off + c, data[c..]);
    PlacedHead(fs, WritePlaced(fs1, bs, m[1..], off + c, data[c..]), bs, m, off, data);
  }

  /** With distinct places, the image after the placed write holds the data. */
  lemma {:induction false} WritePlacedHolds(fs: Image, bs: nat, m: seq<u32>, off: nat, data: seq<byte>)
    requires bs > 0 && Sized(fs, bs) && Places(|fs|, bs, m, off, |data|) && Distinct(m)
    ensures Holds(WritePlaced(fs, bs, m, off, data), bs, m, off, data)
    decreases |data|
  {
    if |data| > 0 {
      PlacesRest(|fs|, bs, m, off, |data|);
      DistinctRest(m);
      var c := ChunkLen(bs, off, |data|);
      var fs1 := WriteFirst(fs, bs, m, off, data);
      WritePlacedTurn(fs, bs, m, off, data);
      WritePlacedHead(fs, bs, m, off, data);
      WritePlacedHolds(fs1, bs, m[1..], off + c, data[c..]);
      HoldsTurn(WritePlaced(fs1, bs, m[1..], off + c, data[c..]), bs, m, off, data);
    }
  }

  /** With distinct places, the placed read returns what the placed write wrote. */
  lemma PlacedRoundTrip(fs: Image, bs: nat, m: seq<u32>, off: nat, data: seq<byte>)
    requires bs > 0 && Sized(fs, bs) && Places(|fs|, bs, m, off, |data|) && Distinct(m)
    ensures ReadPlaced(WritePlaced(fs, bs, m, off, data), bs, m, off, |data|) == data
  {
    WritePlacedHolds(fs, bs, m, off, data);
    ReadHolds(WritePlaced(fs, bs, m, off, data), bs, m, off, data);
  }

  // ---------------------------------------------------------------------
  // The stream loops follow the placement
  // ---------------------------------------------------------------------

  /** The read loop reads chunk k from the block its logical block resolves to. */
  lemma {:induction false} ReadStreamPlaced(res: nat -> Option<u32>, fs: Image, bs: nat, m: seq<u32>, off: nat, n: nat)
    requires bs > 0 && Sized(fs, bs) && Places(|fs|, bs, m, off, n) && Follows(res, ChunkBlocks(bs, off, n), m)
    ensures ReadStream(ChunkReader(res, fs, bs), bs, off, n) == Some(ReadPlaced(fs, bs, m, off, n))
    decreases n
  {
    if n > 0 {
      var c := ChunkLen(bs, off, n);
      ChunkBlocksRest(bs, off, n);
      PlacesRest(|fs|, bs, m, off, n);
      FollowsRest(res, ChunkBlocks(bs, off, n), m);
      var d := ReadIn(fs, m[0], InBlock(bs, off), c);
      assert ReadChunk(res, fs, bs, off, c) == Some(d);
      assert ChunkReader(res, fs, bs)(off)(c) == Some(d);
      ReadStreamPlaced(res, fs, bs, m[1..], off + c, n - c);
      ReadStreamTurn(ChunkReader(res, fs, bs), bs, off, n, d, ReadPlaced(fs, bs, m[1..], off + c, n - c));
      ReadPlacedTurn(fs, bs, m, off, n);
    }
  }

  /** The write loop of a range is its first chunk, then the placed write of the rest. */
  lemma WriteStreamStep(r: Image -> nat -> Option<u32>, fs: Image, bs: nat, m: seq<u32>, off: nat, data: seq<byte>)
    requires bs > 0 && Sized(fs, bs) && |data| > 0 && |m| > 0 && m[0] as nat < |fs|
    requires WriteChunk(r(fs), fs, bs, off, data[..ChunkLen(bs, off, |data|)]) == Some(WriteFirst(fs, bs, m, off, data))
    requires var c := ChunkLen(bs, off, |data|);
      var fs1 := WriteFirst(fs, bs, m, off, data);
      WriteStream(ChunkWriter(r, bs), fs1, bs, off + c, data[c..]) == Some(WritePlaced(fs1, bs, m[1..], off + c, data[c..]))
    ensures WriteStream(ChunkWriter(r, bs), fs, bs, off, data) == Some(WritePlaced(fs, bs, m, off, data))
  {
    var c := ChunkLen(bs, off, |data|);
    assert ChunkWriter(r, bs)(fs)(off)(data[..c]) == Some(WriteFirst(fs, bs, m, off, data));
    WriteStreamTurn(ChunkWriter(r, bs), fs, bs, off, data, WriteFirst(fs, bs, m, off, data));
    WritePlacedTurn(fs, bs, m, off, data);
  }

  /**
   * The first turn of the write loop under a pinned placement: the chunk goes
   * to m[0], and the rest of the placement stays pinned in the image it leaves.
   */
  lemma WriteStreamHead(r: Image -> nat -> Option<u32>, fs: Image, bs: nat, m: seq<u32>, off: nat, data: seq<byte>)
    requires bs > 0 && Sized(fs, bs) && |data| > 0
    requires Places(|fs|, bs, m, off, |data|) && Pinned(r, fs, bs, ChunkBlocks(bs, off, |data|), m)
    ensures |m| > 0 && m[0] as nat < |fs|
    ensures WriteChunk(r(fs), fs, bs, off, data[..ChunkLen(bs, off, |data|)]) == Some(WriteFirst(fs, bs, m, off, data))
    ensures var c := ChunkLen(bs, off, |data|);
      && Places(|fs|, bs, m[1..], off + c, |data[c..]|)
      && Pinned(r, WriteFirst(fs, bs, m, off, data), bs, ChunkBlocks(bs, off + c, |data[c..]|), m[1..])
  {
    var js := ChunkBlocks(bs, off, |data|);
    var c := ChunkLen(bs, off, |data|);
    var lo := InBlock(bs, off);
    ChunkBlocksRest(bs, off, |data|);
    PlacesRest(|fs|, bs, m, off, |data|);
    assert Outside(fs, fs, m);
    FollowsRest(r(fs), js, m);
    var blk := Splice(fs[m[0]], lo, data[..c]);
    assert WriteFirst(fs, bs, m, off, data) == fs[m[0] as nat := blk];
    PinnedRest(r, fs, bs, js, m, blk);
  }

  /** The write loop writes chunk k to the block its logical block resolves to. */
  lemma {:induction false} WriteStreamPlaced(r: Image -> nat -> Option<u32>, fs: Image, bs: nat, m: seq<u32>, off: nat, data: seq<byte>)
    requires bs > 0 && Sized(fs, bs) && Places(|fs|, bs, m, off, |data|) && Pinned(r, fs, bs, ChunkBlocks(bs, off, |data|), m)
    ensures WriteStream(ChunkWriter(r, bs), fs, bs, off, data) == Some(WritePlaced(fs, bs, m, off, data))
    decreases |data|
  {
    if |data| > 0 {
      WriteStreamHead(r, fs, bs, m, off, data);
      var c := ChunkLen(bs, off, |data|);
      var fs1 := WriteFirst(fs, bs, m, off, data);
      assert |data[c..]| == |data| - c;
      WriteStreamPlaced(r, fs1, bs, m[1..], off + c, data[c..]);
      WriteStreamStep(r, fs, bs, m, off, data);
    }
  }

  /**
   * The round trip for any resolution: with a placement that the writes do not
   * move and that never sends two chunks to one block, the read after the
   * write returns the bytes written.
   */
  lemma PinnedRoundTrip(r: Image -> nat -> Option<u32>, fs: Image, bs: nat, m: seq<u32>, off: nat, data: seq<byte>)
    requires bs > 0 && Sized(fs, bs) && Places(|fs|, bs, m, off, |data|) && Distinct(m)
    requires Pinned(r, fs, bs, ChunkBlocks(bs, off, |data|), m)
    ensures WriteStream(ChunkWriter(r, bs), fs, bs, off, data).Some?
    ensures var fs' := WriteStream(ChunkWriter(r, bs), fs, bs, off, data).value;
      ReadStream(ChunkReader(r(fs'), fs', bs), bs, off, |data|) == Some(data)
  {
    WriteStreamPlaced(r, fs, bs, m, off, data);
    var fs' := WritePlaced(fs, bs, m, off, data);
    WritePlacedFrame(fs, bs, m, off, data);
    ReadStreamPlaced(r(fs'), fs', bs, m, off, |data|);
    PlacedRoundTrip(fs, bs, m, off, data);
  }

  // ---------------------------------------------------------------------
  // The round trip for a file
  // ---------------------------------------------------------------------

  /**
   * The precondition of the round trip for a file: every chunk's logical block
   * resolves, no two chunks share a block, and no block written is read while
   * resolving a chunk (it is neither an indirect block on the way nor a bitmap block).
   */
  ghost predicate Separate(fs: Image, sb: SuperBlock, bgd: seq<GroupDesc>, ino: Inode, off: nat, n: nat)
    requires Geometry(sb, bgd) && Shaped(fs, Log(sb))
  {
    var js := ChunkBlocks(BlockBytes(Log(sb)), off, n);
    exists m: seq<u32> ::
      && Follows(Resolution(sb, bgd, ino)(fs), js, m)
      && Distinct(m)
      && forall k, i | 0 <= k < |js| && 0 <= i < |m| :: m[i] as nat !in ResolveReads(fs, sb, bgd, ino, js[k])
  }

  /** A separate placement of a file lies in the image and is pinned. */
  lemma SeparatePinned(fs: Image, sb: SuperBlock, bgd: seq<GroupDesc>, ino: Inode, js: seq<nat>, m: seq<u32>)
    requires Geometry(sb, bgd) && Shaped(fs, Log(sb))
    requires Follows(Resolution(sb, bgd, ino)(fs), js, m)
    requires forall k, i | 0 <= k < |js| && 0 <= i < |m| :: m[i] as nat !in ResolveReads(fs, sb, bgd, ino, js[k])
    ensures forall k | 0 <= k < |m| :: m[k] as nat < |fs|
    ensures Pinned(Resolution(sb, bgd, ino), fs, BlockBytes(Log(sb)), js, m)
  {
    forall k | 0 <= k < |m|
      ensures Resolve(fs, sb, bgd, ino, js[k]) == Some(m[k]) && m[k] as nat < |fs|
    {
      ResolutionIs(fs, sb, bgd, ino, js[k]);
    }
    forall d: Image | Sized(d, BlockBytes(Log(sb))) && Outside(d, fs, m)
      ensures Follows(Resolution(sb, bgd, ino)(d), js, m)
    {
      forall k | 0 <= k < |js|
        ensures Resolution(sb, bgd, ino)(d)(js[k]) == Some(m[k])
      {
        var rd := ResolveReads(fs, sb, bgd, ino, js[k]);
        forall x | x in rd && x < |fs|
          ensures fs[x] == d[x]
        {
          assert Unplaced(m, x);
        }
        ResolveFrame(fs, d, sb, bgd, ino, js[k]);
        ResolutionIs(d, sb, bgd, ino, js[k]);
      }
    }
  }

  /**
   * Over a separate range, `write_inode_data` succeeds and `read_inode_data`
   * of the same range then returns exactly the bytes written.
   */
  lemma StreamRoundTrip(fs: Image, sb: SuperBlock, bgd: seq<GroupDesc>, ino: Inode, off: nat, data: seq<byte>)
    requires Geometry(sb, bgd) && Shaped(fs, Log(sb)) && Separate(fs, sb, bgd, ino, off, |data|)
    ensures var bs := BlockBytes(Log(sb));
      WriteStream(ChunkWriter(Resolution(sb, bgd, ino), bs), fs, bs, off, data).Some?
    ensures var bs := BlockBytes(Log(sb));
      var fs' := WriteStream(ChunkWriter(Resolution(sb, bgd, ino), bs), fs, bs, off, data).value;
      ReadStream(ChunkReader(Resolution(sb, bgd, ino)(fs'), fs', bs), bs, off, |data|) == Some(data)
  {
    var js := ChunkBlocks(BlockBytes(Log(sb)), off, |data|);
    var m :| && Follows(Resolution(sb, bgd, ino)(fs), js, m)
             && Distinct(m)
             && forall k, i | 0 <= k < |js| && 0 <= i < |m| :: m[i] as nat !in ResolveReads(fs, sb, bgd, ino, js[k]);
    SeparatePinned(fs, sb, bgd, ino, js, m);
    PinnedRoundTrip(Resolution(sb, bgd, ino), fs, BlockBytes(Log(sb)), m, off, data);
  }
}
