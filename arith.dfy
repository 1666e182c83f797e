/** Facts about Euclidean division that the solver does not find on its own. */
module Arith {

  lemma MulAtLeastOnce(k: int, m: int)
    requires k >= 1 && m > 0
    ensures k * m >= m
  {
  }

  lemma MulDistributes(a: int, b: int, m: int)
    ensures a * m - b * m == (a - b) * m
  {
  }

  /** Quotient and remainder are the only pair that rebuilds `n`. */
  lemma DivModUnique(n: int, m: int, q: int, r: int)
    requires m > 0 && 0 <= r < m && n == q * m + r
    ensures n % m == r && n / m == q
  {
    var q0, r0 := n / m, n % m;
    assert n == q0 * m + r0;
    MulDistributes(q, q0, m);
    if q - q0 >= 1 { MulAtLeastOnce(q - q0, m); }
    if q0 - q >= 1 { MulAtLeastOnce(q0 - q, m); MulDistributes(q0, q, m); }
  }

  lemma ModShift(a: nat, m: nat)
    requires m > 0
    ensures (a + m) % m == a % m
  {
    assert a == (a / m) * m + a % m;
    DivModUnique(a + m, m, a / m + 1, a % m);
  }

  /** Inside one period plus its end point, `% m` is the identity except at `m` itself. */
  lemma ModUpTo(x: nat, m: nat)
    requires m > 0 && x <= m
    ensures x % m == (if x == m then 0 else x)
  {
    if x == m { DivModUnique(x, m, 1, 0); } else { DivModUnique(x, m, 0, x); }
  }

  /** Below the modulus, `% m` is the identity. */
  lemma ModBelow(x: nat, m: nat)
    requires m > 0
    ensures x < m ==> x % m == x
  {
    if x < m { DivModUnique(x, m, 0, x); }
  }
}
