// Unsigned bit masks, as the C sources use them to reduce a hash to a table
// index and to peel digits off a number.
module Bits {

  /** The C operator `x & y` on unsigned operands. */
  function And(x: nat, y: nat): (r: nat)
    ensures r <= y
  {
    if x == 0 || y == 0 then 0
    else 2 * And(x / 2, y / 2) + (if x % 2 == 1 && y % 2 == 1 then 1 else 0)
  }

  /** m is 2^k - 1 for some k. */
  predicate IsMask(m: nat) {
    m == 0 || (m % 2 == 1 && IsMask(m / 2))
  }

  /** Masking with 2^k - 1 is reduction modulo 2^k. */
  lemma {:induction false} AndMask(x: nat, m: nat)
    requires IsMask(m)
    ensures And(x, m) == x % (m + 1)
  {
    if x != 0 && m != 0 {
      AndMask(x / 2, m / 2);
      HalfMod(x, m / 2 + 1);
    }
  }

  lemma HalfMod(x: nat, n: nat)
    requires n > 0
    ensures x % (2 * n) == 2 * (x / 2 % n) + x % 2
  {
    var q, s := x / 2 / n, x / 2 % n;
    assert x / 2 == n * q + s;
    calc {
      x;
      2 * (n * q + s) + x % 2;
      (2 * n) * q + (2 * s + x % 2);
    }
    DivModUnique(x, 2 * n, q, 2 * s + x % 2);
  }

  /** Quotient and remainder are determined by the division equation. */
  lemma DivModUnique(x: int, n: int, q: int, r: int)
    requires n > 0 && 0 <= r < n && x == n * q + r
    ensures x / n == q && x % n == r
  {
    var k := x / n - q;
    assert n * k == r - x % n by {
      assert x == n * (x / n) + x % n;
      assert n * k == n * (x / n) - n * q;
    }
    SmallMultiple(n, k);
  }

  lemma SmallMultiple(n: int, k: int)
    requires n > 0 && -n < n * k < n
    ensures k == 0
  {
  }
}
