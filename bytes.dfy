/**
 * Byte-level primitives shared by every layer: unsigned widths, the bits of a
 * bitmap byte, little-endian 32-bit words and in-place splicing of byte strings.
 */
module Bytes {

  type byte = x: int | 0 <= x < 0x100
  type u16 = x: int | 0 <= x < 0x1_0000
  type u32 = x: int | 0 <= x < 0x1_0000_0000

  /** 2^32: unsigned 32-bit arithmetic wraps modulo this. */
  const U32_MOD: int := 0x1_0000_0000

  function Pow2(n: nat): (p: nat)
    ensures p >= 1
  {
    if n == 0 then 1 else 2 * Pow2(n - 1)
  }

  /** Zero-initialised buffer, as `std::make_unique<char[]>(n)` yields. */
  function Zeros(n: nat): (z: seq<byte>)
    ensures |z| == n
    ensures forall i | 0 <= i < n :: z[i] == 0
  {
    seq(n, _ => 0)
  }

  /** The result of an operation that the source may abandon with a failed `assert`. */
  datatype Option<T> = None | Some(value: T)

  function Min(a: int, b: int): int { if a < b then a else b }

  // ---------------------------------------------------------------------
  // Bits of a byte
  // ---------------------------------------------------------------------

  /** The low n bits of x, least significant first. */
  function BitsOf(x: nat, n: nat): (bs: seq<bool>)
    ensures |bs| == n
  {
    if n == 0 then [] else [x % 2 == 1] + BitsOf(x / 2, n - 1)
  }

  function FromBits(bs: seq<bool>): (x: nat)
    ensures x < Pow2(|bs|)
  {
    if bs == [] then 0 else (if bs[0] then 1 else 0) + 2 * FromBits(bs[1..])
  }

  lemma {:induction false} BitsOfFromBits(bs: seq<bool>)
    ensures BitsOf(FromBits(bs), |bs|) == bs
  {
    if bs != [] {
      BitsOfFromBits(bs[1..]);
      assert FromBits(bs) / 2 == FromBits(bs[1..]);
    }
  }

  lemma {:induction false} FromBitsOf(x: nat, n: nat)
    requires x < Pow2(n)
    ensures FromBits(BitsOf(x, n)) == x
  {
    if n > 0 {
      FromBitsOf(x / 2, n - 1);
      assert BitsOf(x, n)[1..] == BitsOf(x / 2, n - 1);
    }
  }

  /** Raising a clear bit adds its weight: the effect of `x |= 1 << k`. */
  lemma {:induction false} FromBitsRaise(bs: seq<bool>, k: nat)
    requires k < |bs| && !bs[k]
    ensures FromBits(bs[k := true]) == FromBits(bs) + Pow2(k)
  {
    if k > 0 {
      FromBitsRaise(bs[1..], k - 1);
      assert bs[k := true][1..] == bs[1..][k - 1 := true];
    }
  }

  /** Bit k (weight 2^k) of a byte. */
  predicate BitSet(x: byte, k: nat)
    requires k < 8
  {
    BitsOf(x, 8)[k]
  }

  /**
   * Sets (v) or clears (!v) bit k of x and keeps the other seven bits:
   * `x |= 1 << k` and `x &= ~(1 << k)` respectively.
   */
  function SetBit(x: byte, k: nat, v: bool): (y: byte)
    requires k < 8
    ensures forall j | 0 <= j < 8 :: BitSet(y, j) == (if j == k then v else BitSet(x, j))
  {
    var bs := BitsOf(x, 8)[k := v];
    BitsOfFromBits(bs);
    assert Pow2(8) == 256;
    FromBits(bs)
  }

  /** Setting a clear bit is the same as adding its weight, as `|=` does. */
  lemma SetBitAdds(x: byte, k: nat)
    requires k < 8 && !BitSet(x, k)
    ensures SetBit(x, k, true) == x + Pow2(k)
  {
    assert Pow2(8) == 256;
    FromBitsOf(x, 8);
    FromBitsRaise(BitsOf(x, 8), k);
  }

  /** A byte is determined by its eight bits. */
  lemma BitsDetermine(x: byte, y: byte)
    requires forall j | 0 <= j < 8 :: BitSet(x, j) == BitSet(y, j)
    ensures x == y
  {
    assert BitsOf(x, 8) == BitsOf(y, 8) by {
      forall j | 0 <= j < 8
        ensures BitsOf(x, 8)[j] == BitsOf(y, 8)[j]
      {
        assert BitSet(x, j) == BitSet(y, j);
      }
    }
    assert Pow2(8) == 256;
    FromBitsOf(x, 8);
    FromBitsOf(y, 8);
  }

  // ---------------------------------------------------------------------
  // Bitmaps: bit n of a block lives in byte n / 8, bit n % 8
  // ---------------------------------------------------------------------

  predicate BitAt(blk: seq<byte>, n: nat)
    requires n / 8 < |blk|
  {
    BitSet(blk[n / 8], n % 8)
  }

  function SetBitAt(blk: seq<byte>, n: nat, v: bool): (r: seq<byte>)
    requires n / 8 < |blk|
    ensures |r| == |blk|
    ensures forall m: nat | m / 8 < |blk| :: BitAt(r, m) == (if m == n then v else BitAt(blk, m))
    ensures forall i | 0 <= i < |blk| && i != n / 8 :: r[i] == blk[i]
  {
    blk[n / 8 := SetBit(blk[n / 8], n % 8, v)]
  }

  /** Putting bit n back to its old value undoes a `SetBitAt`. */
  lemma SetBitAtRestore(blk: seq<byte>, n: nat, v: bool)
    requires n / 8 < |blk|
    ensures SetBitAt(SetBitAt(blk, n, v), n, BitAt(blk, n)) == blk
  {
    var r := SetBitAt(SetBitAt(blk, n, v), n, BitAt(blk, n));
    var k := n / 8;
    forall j | 0 <= j < 8
      ensures BitSet(r[k], j) == BitSet(blk[k], j)
    {
      var m := 8 * k + j;
      assert m / 8 == k && m % 8 == j;
      assert BitAt(r, m) == BitAt(blk, m);
    }
    BitsDetermine(r[k], blk[k]);
  }

  // ---------------------------------------------------------------------
  // Little-endian 32-bit words
  // ---------------------------------------------------------------------

  /** The i-th little-endian 32-bit word of s, `*((uint32_t*)s + i)`. */
  function WordAt(s: seq<byte>, i: nat): u32
    requires 4 * i + 4 <= |s|
  {
    s[4 * i] as int + 0x100 * (s[4 * i + 1] as int) + 0x1_0000 * (s[4 * i + 2] as int)
      + 0x100_0000 * (s[4 * i + 3] as int)
  }

  function EncodeWord(w: u32): (b: seq<byte>)
    ensures |b| == 4 && WordAt(b, 0) == w
  {
    [w % 0x100, (w / 0x100) % 0x100, (w / 0x1_0000) % 0x100, w / 0x100_0000]
  }

  lemma EncodeWordAt(s: seq<byte>)
    requires |s| == 4
    ensures EncodeWord(WordAt(s, 0)) == s
  {
    var t2 := s[2] as int + 0x100 * (s[3] as int);
    var t1 := s[1] as int + 0x100 * t2;
    assert WordAt(s, 0) == s[0] as int + 0x100 * t1;
    ByteSplit(s[0], t1);
    ByteSplit(s[1], t2);
    ByteSplit(s[2], s[3]);
    assert WordAt(s, 0) / 0x1_0000 == t2 by {
      assert WordAt(s, 0) == s[0] as int + 0x100 * (s[1] as int) + 0x1_0000 * t2;
    }
    assert WordAt(s, 0) / 0x100_0000 == s[3];
  }

  lemma ByteSplit(lo: byte, hi: int)
    requires hi >= 0
    ensures (lo + 0x100 * hi) % 0x100 == lo && (lo + 0x100 * hi) / 0x100 == hi
  {
  }

  function EncodeWords(ws: seq<u32>): (b: seq<byte>)
    ensures |b| == 4 * |ws|
  {
    if ws == [] then [] else EncodeWord(ws[0]) + EncodeWords(ws[1..])
  }

  function DecodeWords(s: seq<byte>, n: nat): (ws: seq<u32>)
    requires 4 * n <= |s|
    ensures |ws| == n
    ensures forall i | 0 <= i < n :: ws[i] == WordAt(s, i)
  {
    seq(n, i requires 0 <= i < n => WordAt(s, i))
  }

  /** Words decoded from the first 4 * n bytes depend on those bytes only. */
  lemma DecodeWordsPrefix(s: seq<byte>, t: seq<byte>, n: nat)
    requires 4 * n <= |s| && 4 * n <= |t| && s[..4 * n] == t[..4 * n]
    ensures DecodeWords(s, n) == DecodeWords(t, n)
  {
    forall i | 0 <= i < n
      ensures WordAt(s, i) == WordAt(t, i)
    {
      assert s[4 * i] == s[..4 * n][4 * i] && s[4 * i + 1] == s[..4 * n][4 * i + 1];
      assert s[4 * i + 2] == s[..4 * n][4 * i + 2] && s[4 * i + 3] == s[..4 * n][4 * i + 3];
      assert t[4 * i] == t[..4 * n][4 * i] && t[4 * i + 1] == t[..4 * n][4 * i + 1];
      assert t[4 * i + 2] == t[..4 * n][4 * i + 2] && t[4 * i + 3] == t[..4 * n][4 * i + 3];
    }
  }

  lemma {:induction false} WordAtEncodeWords(ws: seq<u32>, rest: seq<byte>, i: nat)
    requires i < |ws|
    ensures WordAt(EncodeWords(ws) + rest, i) == ws[i]
  {
    var s := EncodeWords(ws) + rest;
    if i == 0 {
      assert s[..4] == EncodeWord(ws[0]);
    } else {
      WordAtEncodeWords(ws[1..], rest, i - 1);
      assert s[4..] == EncodeWords(ws[1..]) + rest;
    }
  }

  /** Words encoded and read back (whatever follows them) are the same words. */
  lemma DecodeEncodeWords(ws: seq<u32>, rest: seq<byte>)
    ensures DecodeWords(EncodeWords(ws) + rest, |ws|) == ws
  {
    forall i | 0 <= i < |ws| {
      WordAtEncodeWords(ws, rest, i);
    }
  }

  /** Every byte string of whole words is the encoding of its words. */
  lemma {:induction false} EncodeDecodeWords(s: seq<byte>, n: nat)
    requires |s| == 4 * n
    ensures EncodeWords(DecodeWords(s, n)) == s
  {
    if n > 0 {
      EncodeDecodeWords(s[4..], n - 1);
      EncodeWordAt(s[..4]);
      assert DecodeWords(s, n)[1..] == DecodeWords(s[4..], n - 1);
      assert WordAt(s, 0) == WordAt(s[..4], 0);
    }
  }

  // ---------------------------------------------------------------------
  // Splicing
  // ---------------------------------------------------------------------

  /** s with t copied over position off, `memcpy(s + off, t, |t|)`. */
  function Splice(s: seq<byte>, off: nat, t: seq<byte>): (r: seq<byte>)
    requires off + |t| <= |s|
    ensures |r| == |s|
    ensures r[off..off + |t|] == t
    ensures forall i | 0 <= i < |s| && !(off <= i < off + |t|) :: r[i] == s[i]
  {
    s[..off] + t + s[off + |t|..]
  }

  lemma SplitJoin(s: seq<byte>, k: nat)
    requires k <= |s|
    ensures s[..k] + s[k..] == s
  {
  }

  /** Overwrites word i, `*((uint32_t*)s + i) = w`. */
  function SetWordAt(s: seq<byte>, i: nat, w: u32): (r: seq<byte>)
    requires 4 * i + 4 <= |s|
    ensures |r| == |s|
    ensures forall j: nat | 4 * j + 4 <= |s| :: WordAt(r, j) == (if j == i then w else WordAt(s, j))
  {
    var r := Splice(s, 4 * i, EncodeWord(w));
    assert forall j: nat | 4 * j + 4 <= |s| && j != i :: r[4 * j..4 * j + 4] == s[4 * j..4 * j + 4];
    r
  }
}
