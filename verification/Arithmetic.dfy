/** Quotients and remainders by a variable. */
module Arithmetic {

  lemma DivMod(q: nat, r: nat, m: nat, x: nat)
    requires r < m && x == q * m + r
    ensures x / m == q && x % m == r
  {
    assert (x / m - q) * m == r - x % m;
    Small(x / m - q, m);
  }

  lemma Small(d: int, m: int)
    requires -m < d * m < m
    ensures d == 0
  {
  }
}
