/** Facts about multiplication and division that the other modules share. */
module Arithmetic {
  /** Unsigned 64-bit arithmetic is modulo this. */
  const U64: nat := 0x1_0000_0000_0000_0000

  function Pow2(i: nat): (p: nat)
    ensures p >= 1
  {
    if i == 0 then 1 else 2 * Pow2(i - 1)
  }

  lemma Scaled(a: int, b: int, n: int)
    requires a <= b && 0 <= n
    ensures a * n <= b * n
  {
    assert (b - a) * n >= 0;
  }

  /** A quotient and a remainder in range are the quotient and the remainder. */
  lemma Unique(n: nat, d: nat, q: nat, r: nat)
    requires r < d && n == q * d + r
    ensures q == n / d && r == n % d
  {
    var q', r' := n / d, n % d;
    assert n == q' * d + r';
    assert (q + 1) * d == q * d + d && (q' + 1) * d == q' * d + d;
    if q < q' { Scaled(q + 1, q', d); }
    if q' < q { Scaled(q' + 1, q, d); }
  }
}
