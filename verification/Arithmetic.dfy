/** Products, powers of two and remainders. */
module Arithmetic {
  function Pow2(n: nat): (r: nat)
    ensures r > 0
  {
    if n == 0 then 1 else 2 * Pow2(n - 1)
  }

  lemma ProductGrows(p: nat, a: nat, b: nat)
    ensures a <= b ==> p * a <= p * b
  {
    if a <= b {
      assert p * b == p * a + p * (b - a);
    }
  }

  /** A remainder is determined by any way to write the number. */
  lemma RemainderIs(x: nat, p: nat, q: nat, r: nat)
    requires x == p * q + r && r < p
    ensures x % p == r
  {
    var q' := x / p;
    assert x == p * q' + x % p;
    ProductGrows(p, q + 1, q');
    ProductGrows(p, q' + 1, q);
    assert p * (q + 1) == p * q + p && p * (q' + 1) == p * q' + p;
  }
}
