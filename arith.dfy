/**
 * Products, quotients and remainders of two unknowns (a block number times the
 * device blocks per filesystem block, an inode number divided by the inodes
 * per group, ...). They are spelt as recursive functions, so every other proof
 * reasons about them only through the linear facts stated here.
 */
module Arith {

  /** a * b. */
  function Mul(a: nat, b: nat): nat
    decreases a
  {
    if a == 0 then 0 else Mul(a - 1, b) + b
  }

  /** n / d, rounding down. */
  function Div(n: nat, d: nat): nat
    requires d > 0
    decreases n
  {
    if n < d then 0 else Div(n - d, d) + 1
  }

  /** n % d. */
  function Mod(n: nat, d: nat): (r: nat)
    requires d > 0
    ensures r < d
    decreases n
  {
    if n < d then n else Mod(n - d, d)
  }

  /** n is Div(n, d) whole d's and a remainder below d. */
  lemma {:induction false} DivMod(n: nat, d: nat)
    requires d > 0
    ensures n == Mul(Div(n, d), d) + Mod(n, d)
    ensures Div(n, d) <= n && Mod(n, d) <= n
  {
    if n >= d {
      DivMod(n - d, d);
    }
  }

  /** Quotient and remainder are the only such decomposition. */
  lemma {:induction false} DivModUnique(n: nat, d: nat, q: nat, r: nat)
    requires r < d && n == Mul(q, d) + r
    ensures Div(n, d) == q && Mod(n, d) == r
    decreases q
  {
    if q > 0 {
      DivModUnique(n - d, d, q - 1, r);
    }
  }

  lemma {:induction false} MulMono(a: nat, b: nat, p: nat)
    requires a <= b
    ensures Mul(a, p) <= Mul(b, p)
    decreases b - a
  {
    if a < b {
      MulMono(a, b - 1, p);
    }
  }

  /** One more multiplier adds one more multiplicand. */
  lemma MulSucc(a: nat, b: nat)
    ensures Mul(a + 1, b) == Mul(a, b) + b
  {
  }

  /** A positive multiple is at least the multiplier. */
  lemma {:induction false} MulAtLeast(a: nat, b: nat)
    requires b > 0
    ensures Mul(a, b) >= a
  {
    if a > 0 {
      MulAtLeast(a - 1, b);
    }
  }
}
