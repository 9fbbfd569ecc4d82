/**
 * `free_indirect_blocks(bid, level, start, end)`: releases the data blocks of
 * entries [start, end) of the subtree under indirect block bid, counted in
 * data blocks, and the indirect blocks emptied on the way. It reports whether
 * it released bid itself, in which case the caller zeroes its pointer.
 *
 * The source's loop over children at a level above 1 has two defects, so the
 * model holds the code as written and a corrected variant side by side.
 */
module Freeing {
  import opened Bytes
  import opened Ext2
  import opened Blocks
  import opened Arith

  /** Which loop bounds and release test the recursion uses. */
  datatype Variant = AsWritten | Corrected

  /** Data blocks under one entry of an indirect block at `level`: E^(level-1). */
  function LevelEntries(e: nat, level: nat): (n: nat)
    requires e > 0 && level >= 1
    ensures n > 0
    decreases level
  {
    if level == 1 then 1 else Mul(LevelEntries(e, level - 1), e)
  }

  /** One child the loop descends into: its entry index and its sub-range. */
  datatype Visit = Visit(index: nat, lo: nat, hi: nat)

  /**
   * The source's loop: children start/le up to and including end/le, the first
   * from start % le, the one at end/le up to end % le, every other in full.
   */
  function WrittenVisits(start: nat, end: nat, le: nat, i: nat): (vs: seq<Visit>)
    requires le > 0
    ensures forall j | 0 <= j < |vs| :: vs[j].index == i + j && vs[j].index <= Div(end, le)
    decreases Div(end, le) + 1 - i
  {
    if i > Div(end, le) then []
    else
      [Visit(i, if i == Div(start, le) then Mod(start, le) else 0,
                if i == Div(end, le) then Mod(end, le) else le)]
      + WrittenVisits(start, end, le, i + 1)
  }

  /**
   * The intended loop: only the children whose range meets [start, end), the
   * last one up to end.
   */
  function CorrectedVisits(start: nat, end: nat, le: nat, i: nat): (vs: seq<Visit>)
    requires le > 0
    ensures forall j | 0 <= j < |vs| :: vs[j].index == i + j && Mul(vs[j].index, le) < end
    decreases end - Mul(i, le)
  {
    if end <= start || Mul(i, le) >= end then []
    else
      MulSucc(i, le);
      [Visit(i, if i == Div(start, le) then Mod(start, le) else 0,
                if Mul(i + 1, le) >= end then end - Mul(i, le) else le)]
      + CorrectedVisits(start, end, le, i + 1)
  }

  function Visits(v: Variant, start: nat, end: nat, le: nat): seq<Visit>
    requires le > 0
  {
    match v
    case AsWritten => WrittenVisits(start, end, le, Div(start, le))
    case Corrected => CorrectedVisits(start, end, le, Div(start, le))
  }

  /** The visits of the variant's loop from child i on. */
  function VisitsFrom(v: Variant, start: nat, end: nat, le: nat, i: nat): seq<Visit>
    requires le > 0
  {
    match v
    case AsWritten => WrittenVisits(start, end, le, i)
    case Corrected => CorrectedVisits(start, end, le, i)
  }

  /** While the variant's loop test holds, child i is visited with the bounds the source computes, then the rest. */
  lemma VisitsStep(v: Variant, start: nat, end: nat, le: nat, i: nat)
    requires le > 0
    requires if v.AsWritten? then i <= Div(end, le) else start < end && Mul(i, le) < end
    ensures var vs := VisitsFrom(v, start, end, le, i);
      && |vs| > 0
      && vs[0] == Visit(i, if i == Div(start, le) then Mod(start, le) else 0,
                        if v.AsWritten? then (if i == Div(end, le) then Mod(end, le) else le)
                        else if Mul(i + 1, le) >= end then end - Mul(i, le) else le)
      && vs[1..] == VisitsFrom(v, start, end, le, i + 1)
  {
  }

  /** Once the variant's loop test fails no child is left. */
  lemma VisitsDone(v: Variant, start: nat, end: nat, le: nat, i: nat)
    requires le > 0
    requires !(if v.AsWritten? then i <= Div(end, le) else start < end && Mul(i, le) < end)
    ensures VisitsFrom(v, start, end, le, i) == []
  {
  }

  /**
   * Whether an indirect block is released. At level 1 both variants test
   * start == 0; above it the source tests start / le == 0.
   */
  function Releases(v: Variant, level: nat, start: nat, le: nat): bool
    requires le > 0
  {
    if level == 1 || v.Corrected? then start == 0 else Div(start, le) == 0
  }

  /**
   * `tagBlock(bid, 0)` when the block is released, or None where that
   * assertion fails.
   */
  function Release(fs: Image, sb: SuperBlock, bgd: seq<GroupDesc>, bid: u32, yes: bool): (r: Option<(bool, Image)>)
    requires Geometry(sb, bgd) && Shaped(fs, Log(sb))
    ensures r.Some? ==> r.value.0 == yes && Shaped(r.value.1, Log(sb))
  {
    if !yes then Some((false, fs))
    else if Taggable(sb, bgd, bid) then Some((true, Tag(fs, sb, bgd, bid, false)))
    else None
  }

  /**
   * The level-1 loop: each entry in [i, end) of the block read into blk must be
   * non-zero and taggable, and is marked free. The zeroed entries stay in the
   * local buffer, which is never written back.
   */
  function ClearEntries(fs: Image, sb: SuperBlock, bgd: seq<GroupDesc>, blk: seq<byte>, i: nat, end: nat): (r: Option<Image>)
    requires Geometry(sb, bgd) && Shaped(fs, Log(sb))
    ensures r.Some? ==> Shaped(r.value, Log(sb))
    decreases end - i
  {
    if i >= end then Some(fs)
    else if 4 * i + 4 > |blk| then None
    else
      var entry := WordAt(blk, i);
      if entry == 0 || !Taggable(sb, bgd, entry) then None
      else ClearEntries(Tag(fs, sb, bgd, entry, false), sb, bgd, blk, i + 1, end)
  }

  /**
   * `free_indirect_blocks(bid, level, start, end)`: whether bid was released,
   * and the image afterwards; None where the source aborts or indexes past
   * the block it read.
   */
  function FreeIndirect(v: Variant, fs: Image, sb: SuperBlock, bgd: seq<GroupDesc>, bid: u32,
                        level: nat, start: nat, end: nat): (r: Option<(bool, Image)>)
    requires Geometry(sb, bgd) && Shaped(fs, Log(sb)) && level >= 1
    ensures r.Some? ==> Shaped(r.value.1, Log(sb))
    ensures r.Some? ==> r.value.0 == Releases(v, level, start, LevelEntries(Entries(sb), level))
    decreases level, 1, 0
  {
    if bid as nat >= |fs| then None
    else
      var le := LevelEntries(Entries(sb), level);
      if level == 1 then
        match ClearEntries(fs, sb, bgd, fs[bid], start, end)
        case None => None
        case Some(fs1) => Release(fs1, sb, bgd, bid, Releases(v, level, start, le))
      else
        match FreeChildren(v, fs, sb, bgd, fs[bid], level, Visits(v, start, end, le))
        case None => None
        case Some((fs1, blk)) => Release(fs1[bid := blk], sb, bgd, bid, Releases(v, level, start, le))
  }

  /**
   * The loop over children above level 1: each visited entry of blk must be
   * inside the block and non-zero; the child is freed one level down, and its
   * entry zeroed in blk when the child was released.
   */
  function FreeChildren(v: Variant, fs: Image, sb: SuperBlock, bgd: seq<GroupDesc>, blk: seq<byte>,
                        level: nat, vs: seq<Visit>): (r: Option<(Image, seq<byte>)>)
    requires Geometry(sb, bgd) && Shaped(fs, Log(sb)) && level >= 2
    ensures r.Some? ==> Shaped(r.value.0, Log(sb)) && |r.value.1| == |blk|
    decreases level, 0, |vs|
  {
    if vs == [] then Some((fs, blk))
    else
      var i := vs[0].index;
      if 4 * i + 4 > |blk| || WordAt(blk, i) == 0 then None
      else
        match FreeIndirect(v, fs, sb, bgd, WordAt(blk, i), level - 1, vs[0].lo, vs[0].hi)
        case None => None
        case Some((freed, fs1)) =>
          FreeChildren(v, fs1, sb, bgd, if freed then SetWordAt(blk, i, 0) else blk, level, vs[1..])
  }

  // ---------------------------------------------------------------------
  // Level 1: exactly the entries [start, end) are freed
  // ---------------------------------------------------------------------

  /** The entries in [i, end) of blk that lie inside it. */
  function EntrySet(blk: seq<byte>, i: nat, end: nat): set<u32>
  {
    set k | i <= k < end && 4 * k + 4 <= |blk| :: WordAt(blk, k)
  }

  /**
   * The level-1 loop succeeds exactly when every entry in [i, end) lies in the
   * block, is non-zero and taggable.
   */
  lemma {:induction false} ClearEntriesSome(fs: Image, sb: SuperBlock, bgd: seq<GroupDesc>, blk: seq<byte>, i: nat, end: nat)
    requires Geometry(sb, bgd) && Shaped(fs, Log(sb))
    ensures ClearEntries(fs, sb, bgd, blk, i, end).Some? <==>
      forall k | i <= k < end :: 4 * k + 4 <= |blk| && WordAt(blk, k) != 0 && Taggable(sb, bgd, WordAt(blk, k))
    decreases end - i
  {
    if i < end && 4 * i + 4 <= |blk| {
      var entry := WordAt(blk, i);
      if entry != 0 && Taggable(sb, bgd, entry) {
        ClearEntriesSome(Tag(fs, sb, bgd, entry, false), sb, bgd, blk, i + 1, end);
      }
    }
  }

  /**
   * When the level-1 loop succeeds it leaves exactly the blocks named by the
   * entries [i, end) free and every other block in the state it had.
   */
  lemma {:induction false} ClearEntriesState(fs: Image, sb: SuperBlock, bgd: seq<GroupDesc>, blk: seq<byte>, i: nat, end: nat, c: u32)
    requires Geometry(sb, bgd) && Shaped(fs, Log(sb)) && DistinctBitmaps(bgd)
    requires ClearEntries(fs, sb, bgd, blk, i, end).Some? && Taggable(sb, bgd, c)
    ensures BlockState(ClearEntries(fs, sb, bgd, blk, i, end).value, sb, bgd, c)
      == (c !in EntrySet(blk, i, end) && BlockState(fs, sb, bgd, c))
    decreases end - i
  {
    if i < end {
      var entry := WordAt(blk, i);
      var fs1 := Tag(fs, sb, bgd, entry, false);
      ClearEntriesState(fs1, sb, bgd, blk, i + 1, end, c);
      TagThenState(fs, sb, bgd, entry, false, c);
      assert EntrySet(blk, i, end) == {entry} + EntrySet(blk, i + 1, end);
    } else {
      assert EntrySet(blk, i, end) == {};
    }
  }

  // ---------------------------------------------------------------------
  // The children visited above level 1
  // ---------------------------------------------------------------------

  /** The data-block offsets a < b, in order. */
  function Range(a: nat, b: nat): (r: seq<nat>)
    ensures |r| == if a < b then b - a else 0
    decreases b - a
  {
    if a >= b then [] else [a] + Range(a + 1, b)
  }

  lemma {:induction false} RangeAppend(a: nat, b: nat, c: nat)
    requires a <= b <= c
    ensures Range(a, b) + Range(b, c) == Range(a, c)
    decreases b - a
  {
    if a < b {
      RangeAppend(a + 1, b, c);
    }
  }

  /** The data-block offsets, relative to the parent, that the visits cover. */
  function Covered(vs: seq<Visit>, le: nat): seq<nat>
  {
    if vs == [] then []
    else Range(Mul(vs[0].index, le) + vs[0].lo, Mul(vs[0].index, le) + vs[0].hi) + Covered(vs[1..], le)
  }

  /** Visits of consecutive children from i, each a non-empty part of the child. */
  predicate Tiles(vs: seq<Visit>, le: nat, i: nat)
  {
    forall k | 0 <= k < |vs| :: vs[k].index == i + k && vs[k].lo < vs[k].hi <= le
  }

  /** The first offset child i of the corrected loop covers. */
  function Base(start: nat, le: nat, i: nat): nat
    requires le > 0
  {
    if i == Div(start, le) then start else Mul(i, le)
  }

  /** Facts about child i: where its part starts and ends. */
  lemma ChildBounds(start: nat, end: nat, le: nat, i: nat)
    requires le > 0 && Div(start, le) <= i
    ensures Mul(i + 1, le) == Mul(i, le) + le
    ensures Base(start, le, i) == Mul(i, le) + (if i == Div(start, le) then Mod(start, le) else 0)
    ensures Base(start, le, i) < Mul(i + 1, le)
    ensures Base(start, le, i) >= start
    ensures Base(start, le, i) < end ==> Mul(i, le) < end && start < end
  {
    DivMod(start, le);
    MulSucc(i, le);
    MulSucc(Div(start, le), le);
    if i > Div(start, le) {
      MulMono(Div(start, le) + 1, i, le);
    }
  }

  lemma {:induction false} CorrectedTiles(start: nat, end: nat, le: nat, i: nat)
    requires le > 0 && Div(start, le) <= i
    ensures Tiles(CorrectedVisits(start, end, le, i), le, i)
    decreases end - Mul(i, le)
  {
    ChildBounds(start, end, le, i);
    if !(end <= start || Mul(i, le) >= end) {
      CorrectedTiles(start, end, le, i + 1);
      assert Base(start, le, i) < end by {
        DivMod(start, le);
      }
    }
  }

  /** One step of Covered: the first visit's part followed by the rest. */
  lemma CoveredCons(vs: seq<Visit>, le: nat, base: nat, m: nat, next: nat, end: nat)
    requires vs != [] && base <= m
    requires Mul(vs[0].index, le) + vs[0].lo == base && Mul(vs[0].index, le) + vs[0].hi == m
    requires Covered(vs[1..], le) == Range(next, end)
    requires (m == next && next <= end) || (m == end && next >= end)
    ensures Covered(vs, le) == Range(base, end)
  {
    if m == next && next <= end {
      RangeAppend(base, m, end);
    }
  }

  lemma {:induction false} CorrectedCovered(start: nat, end: nat, le: nat, i: nat)
    requires le > 0 && Div(start, le) <= i
    ensures Covered(CorrectedVisits(start, end, le, i), le) == Range(Base(start, le, i), end)
    decreases end - Mul(i, le)
  {
    ChildBounds(start, end, le, i);
    var vs := CorrectedVisits(start, end, le, i);
    if !(end <= start || Mul(i, le) >= end) {
      CorrectedCovered(start, end, le, i + 1);
      ChildBounds(start, end, le, i + 1);
      assert vs[1..] == CorrectedVisits(start, end, le, i + 1);
      var m := if Mul(i + 1, le) >= end then end else Mul(i + 1, le);
      CoveredCons(vs, le, Base(start, le, i), m, Base(start, le, i + 1), end);
    } else {
      assert Base(start, le, i) >= end by {
        DivMod(start, le);
      }
    }
  }

  /**
   * The corrected loop visits consecutive children, each over a non-empty part
   * of its range, and together they cover exactly the offsets [start, end).
   */
  lemma CorrectedCovers(start: nat, end: nat, le: nat)
    requires le > 0
    ensures Tiles(Visits(Corrected, start, end, le), le, Div(start, le))
    ensures Covered(Visits(Corrected, start, end, le), le) == Range(start, end)
  {
    CorrectedTiles(start, end, le, Div(start, le));
    CorrectedCovered(start, end, le, Div(start, le));
  }

  lemma {:induction false} WrittenIndices(start: nat, end: nat, le: nat, i: nat)
    requires le > 0
    ensures |WrittenVisits(start, end, le, i)| == if i <= Div(end, le) then Div(end, le) + 1 - i else 0
    ensures forall k | 0 <= k < |WrittenVisits(start, end, le, i)| :: WrittenVisits(start, end, le, i)[k].index == i + k
    decreases Div(end, le) + 1 - i
  {
    if i <= Div(end, le) {
      WrittenIndices(start, end, le, i + 1);
    }
  }

  /**
   * When end is a multiple of le the source's loop makes one visit too many:
   * its last child starts at end, outside [start, end), with an empty range.
   */
  lemma WrittenExtraVisit(start: nat, end: nat, le: nat)
    requires le > 0 && start < end && Mod(end, le) == 0
    ensures |Visits(AsWritten, start, end, le)| > 0
    ensures var vs := Visits(AsWritten, start, end, le);
      vs[|vs| - 1] == Visit(Div(end, le), 0, 0) && Mul(Div(end, le), le) == end
  {
    DivMod(start, le);
    DivMod(end, le);
    if Div(end, le) <= Div(start, le) {
      MulMono(Div(end, le), Div(start, le), le);
    }
    WrittenIndices(start, end, le, Div(start, le));
    WrittenLast(start, end, le, Div(start, le));
  }

  lemma {:induction false} WrittenLast(start: nat, end: nat, le: nat, i: nat)
    requires le > 0 && i <= Div(end, le) && Div(start, le) < Div(end, le)
    ensures var vs := WrittenVisits(start, end, le, i);
      |vs| > 0 && vs[|vs| - 1] == Visit(Div(end, le), 0, Mod(end, le))
    decreases Div(end, le) + 1 - i
  {
    if i < Div(end, le) {
      WrittenLast(start, end, le, i + 1);
    }
  }

  // ---------------------------------------------------------------------
  // Consequences for the source's loop
  // ---------------------------------------------------------------------

  /**
   * A visit to an entry that is outside the block or zero, and that no earlier
   * visit touched, makes the loop abort.
   */
  lemma {:induction false} ChildrenAbort(v: Variant, fs: Image, sb: SuperBlock, bgd: seq<GroupDesc>, blk: seq<byte>,
                                         level: nat, vs: seq<Visit>, j: nat)
    requires Geometry(sb, bgd) && Shaped(fs, Log(sb)) && level >= 2
    requires |vs| > 0 && vs[|vs| - 1].index == j
    requires forall k | 0 <= k < |vs| - 1 :: vs[k].index != j
    requires 4 * j + 4 > |blk| || WordAt(blk, j) == 0
    ensures FreeChildren(v, fs, sb, bgd, blk, level, vs) == None
    decreases |vs|
  {
    var i := vs[0].index;
    if |vs| > 1 && !(4 * i + 4 > |blk| || WordAt(blk, i) == 0) {
      match FreeIndirect(v, fs, sb, bgd, WordAt(blk, i), level - 1, vs[0].lo, vs[0].hi)
      case None =>
      case Some((freed, fs1)) =>
        var blk' := if freed then SetWordAt(blk, i, 0) else blk;
        assert forall k | 0 <= k < |vs[1..]| - 1 :: vs[1..][k].index == vs[k + 1].index;
        ChildrenAbort(v, fs1, sb, bgd, blk', level, vs[1..], j);
    }
  }

  /**
   * The source's loop aborts on any shrink whose end is a multiple of the
   * entries per child when the pointer after the last child freed is zero or
   * beyond the block: it visits that child with an empty range and asserts
   * its pointer.
   */
  lemma WrittenAborts(fs: Image, sb: SuperBlock, bgd: seq<GroupDesc>, bid: u32, level: nat, start: nat, end: nat)
    requires Geometry(sb, bgd) && Shaped(fs, Log(sb)) && level >= 2 && bid as nat < |fs|
    requires var le := LevelEntries(Entries(sb), level);
      start < end && Mod(end, le) == 0 &&
      (4 * Div(end, le) + 4 > |fs[bid]| || WordAt(fs[bid], Div(end, le)) == 0)
    ensures FreeIndirect(AsWritten, fs, sb, bgd, bid, level, start, end) == None
  {
    var le := LevelEntries(Entries(sb), level);
    var vs := Visits(AsWritten, start, end, le);
    WrittenExtraVisit(start, end, le);
    WrittenIndices(start, end, le, Div(start, le));
    ChildrenAbort(AsWritten, fs, sb, bgd, fs[bid], level, vs, Div(end, le));
  }

  /**
   * The source releases an indirect block above level 1 whenever start is
   * below the entries of one child, although its first child is visited from
   * start and so keeps the offsets before it; at level 2 that child, a level-1
   * block, is not released. The corrected test keeps the block.
   */
  lemma WrittenReleasesEarly(sb: SuperBlock, level: nat, start: nat, end: nat)
    requires Entries(sb) > 0 && level >= 2
    requires var le := LevelEntries(Entries(sb), level); 0 < start < le && start < end
    ensures var le := LevelEntries(Entries(sb), level);
      Releases(AsWritten, level, start, le) && !Releases(Corrected, level, start, le) &&
      |Visits(AsWritten, start, end, le)| > 0 && Visits(AsWritten, start, end, le)[0].index == 0 &&
      Visits(AsWritten, start, end, le)[0].lo == start &&
      (level == 2 ==> !Releases(AsWritten, 1, start, 1))
  {
    var le := LevelEntries(Entries(sb), level);
    DivModUnique(start, le, 0, start);
    WrittenIndices(start, end, le, 0);
  }
}
