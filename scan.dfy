/**
 * The first-fit search shared by `getIdleBlock` and `getIdleInode`: groups are
 * visited in order, and inside group g the bits 0 .. lims[g] - 1 of its bitmap
 * maps[g] are tested in ascending order; the first clear bit wins.
 */
module Scan {
  import opened Bytes

  /** Every bit the scan may test lies inside its group's bitmap. */
  predicate ScanShape(maps: seq<seq<byte>>, lims: seq<nat>)
  {
    |maps| == |lims| && forall g | 0 <= g < |maps| :: lims[g] <= 8 * |maps[g]|
  }

  /** (g, i) comes before (h, j) in scan order. */
  predicate Before(g: nat, i: nat, h: nat, j: nat)
  {
    g < h || (g == h && i < j)
  }

  /** Bit i of group g is a position the scan tests, and it is clear. */
  predicate Clear(maps: seq<seq<byte>>, lims: seq<nat>, g: nat, i: nat)
    requires ScanShape(maps, lims)
  {
    g < |maps| && i < lims[g] && !BitAt(maps[g], i)
  }

  /** The first clear position at or after (g, i) in scan order. */
  function FirstClear(maps: seq<seq<byte>>, lims: seq<nat>, g: nat, i: nat): Option<(nat, nat)>
    requires ScanShape(maps, lims) && g <= |maps|
    decreases |maps| - g, if g < |maps| then lims[g] - i else 0
  {
    if g == |maps| then None
    else if i >= lims[g] then FirstClear(maps, lims, g + 1, 0)
    else if !BitAt(maps[g], i) then Some((g, i))
    else FirstClear(maps, lims, g, i + 1)
  }

  /** Set bits from i up to k leave the first clear position of group g where it is. */
  lemma {:induction false} FirstClearSkips(maps: seq<seq<byte>>, lims: seq<nat>, g: nat, i: nat, k: nat)
    requires ScanShape(maps, lims) && g < |maps| && i <= k <= lims[g]
    requires forall j | i <= j < k :: BitAt(maps[g], j)
    ensures FirstClear(maps, lims, g, i) == FirstClear(maps, lims, g, k)
    decreases k - i
  {
    if i < k {
      assert BitAt(maps[g], i);
      assert FirstClear(maps, lims, g, i) == FirstClear(maps, lims, g, i + 1);
      FirstClearSkips(maps, lims, g, i + 1, k);
    }
  }

  /**
   * The inner loop of both scans: the first clear bit of bitmap below limit,
   * None when every one of them is set.
   */
  method FirstClearBit(bitmap: seq<byte>, limit: nat) returns (r: Option<nat>)
    requires limit <= 8 * |bitmap|
    ensures r.Some? ==> r.value < limit && !BitAt(bitmap, r.value)
    ensures forall j | 0 <= j < (if r.Some? then r.value else limit) :: BitAt(bitmap, j)
  {
    var i: nat := 0;
    while i < limit
      invariant i <= limit
      invariant forall j | 0 <= j < i :: BitAt(bitmap, j)
    {
      if !BitAt(bitmap, i) {
        return Some(i);
      }
      i := i + 1;
    }
    return None;
  }

  /** No position from (g, i) (inclusive) up to (h, j) (exclusive) in scan order is clear. */
  ghost predicate NoneClearBetween(maps: seq<seq<byte>>, lims: seq<nat>, g: nat, i: nat, h: nat, j: nat)
    requires ScanShape(maps, lims)
  {
    forall g': nat, i': nat | !Before(g', i', g, i) && Before(g', i', h, j) :: !Clear(maps, lims, g', i')
  }

  /**
   * r is what a scan from (g, i) must find: the least clear position at or after
   * (g, i), or none when no position from there on is clear.
   */
  ghost predicate LeastClearFrom(maps: seq<seq<byte>>, lims: seq<nat>, g: nat, i: nat, r: Option<(nat, nat)>)
    requires ScanShape(maps, lims)
  {
    match r
    case None => NoneClearBetween(maps, lims, g, i, |maps|, 0)
    case Some((h, j)) =>
      Clear(maps, lims, h, j) && !Before(h, j, g, i) && NoneClearBetween(maps, lims, g, i, h, j)
  }

  /** The scan finds the least clear position from (g, i) on, and none exactly when there is none. */
  lemma {:induction false} FirstClearLeast(maps: seq<seq<byte>>, lims: seq<nat>, g: nat, i: nat)
    requires ScanShape(maps, lims) && g <= |maps|
    ensures LeastClearFrom(maps, lims, g, i, FirstClear(maps, lims, g, i))
    decreases |maps| - g, if g < |maps| then lims[g] - i else 0
  {
    if g == |maps| {
    } else if i >= lims[g] {
      FirstClearLeast(maps, lims, g + 1, 0);
      var r := FirstClear(maps, lims, g + 1, 0);
      var (h, j) := if r.Some? then r.value else (|maps|, 0);
      PastLimit(maps, lims, g, i, h, j);
    } else if !BitAt(maps[g], i) {
    } else {
      FirstClearLeast(maps, lims, g, i + 1);
      var r := FirstClear(maps, lims, g, i + 1);
      var (h, j) := if r.Some? then r.value else (|maps|, 0);
      PastSetBit(maps, lims, g, i, h, j);
    }
  }

  /** Positions of group g at or past its limit are never clear. */
  lemma PastLimit(maps: seq<seq<byte>>, lims: seq<nat>, g: nat, i: nat, h: nat, j: nat)
    requires ScanShape(maps, lims) && g < |maps| && i >= lims[g]
    requires NoneClearBetween(maps, lims, g + 1, 0, h, j)
    ensures NoneClearBetween(maps, lims, g, i, h, j)
  {
    forall g': nat, i': nat | !Before(g', i', g, i) && Before(g', i', h, j)
      ensures !Clear(maps, lims, g', i')
    {
      if g' == g {
        assert i' >= lims[g];
      } else {
        assert !Before(g', i', g + 1, 0);
      }
    }
  }

  /** A set bit at (g, i) is not clear. */
  lemma PastSetBit(maps: seq<seq<byte>>, lims: seq<nat>, g: nat, i: nat, h: nat, j: nat)
    requires ScanShape(maps, lims) && g < |maps| && i < lims[g] && BitAt(maps[g], i)
    requires NoneClearBetween(maps, lims, g, i + 1, h, j)
    ensures NoneClearBetween(maps, lims, g, i, h, j)
  {
    forall g': nat, i': nat | !Before(g', i', g, i) && Before(g', i', h, j)
      ensures !Clear(maps, lims, g', i')
    {
      if g' != g || i' != i {
        assert !Before(g', i', g, i + 1);
      }
    }
  }

  /** Other positions tell nothing: a clear position at or after (g, i) means the scan finds one. */
  lemma FirstClearFinds(maps: seq<seq<byte>>, lims: seq<nat>, g: nat, i: nat, h: nat, j: nat)
    requires ScanShape(maps, lims) && g <= |maps|
    requires Clear(maps, lims, h, j) && !Before(h, j, g, i)
    ensures FirstClear(maps, lims, g, i).Some?
  {
    FirstClearLeast(maps, lims, g, i);
  }
}
