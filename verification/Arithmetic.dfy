/** Division and remainder by products, and the width of a machine word. */
module Arithmetic {

  /** Values of a 64-bit word. */
  const U64: nat := 0x1_0000_0000_0000_0000

  lemma MulMonotone(x: nat, y: nat, d: nat)
    requires x <= y
    ensures x * d <= y * d
  {
  }

  lemma DivUnique(a: nat, d: nat, q: nat, r: nat)
    requires a == q * d + r && r < d
    ensures a / d == q && a % d == r
  {
    var k, e := a / d, a % d;
    assert k * d + e == q * d + r;
    assert (k + 1) * d == k * d + d && (q + 1) * d == q * d + d;
    if k < q { MulMonotone(k + 1, q, d); }
    if q < k { MulMonotone(q + 1, k, d); }
  }

  lemma Distribute(q: nat, s: nat, r: nat, m: nat, x: nat)
    ensures (q * s + r) * m + x == q * (m * s) + (r * m + x)
  {
    assert q * s * m == q * (s * m) == q * (m * s);
  }

  lemma Nested(a: nat, m: nat, s: nat, p: nat, x: nat, q: nat, r: nat)
    requires a == p * m + x && x < m && p == q * s + r && r < s
    ensures m * s > 0 && a / (m * s) == q && a % (m * s) == r * m + x
  {
    Distribute(q, s, r, m, x);
    MulMonotone(r + 1, s, m);
    assert (r + 1) * m == r * m + m && s * m == m * s;
    DivUnique(a, m * s, q, r * m + x);
  }

  lemma DivDiv(a: nat, m: nat, s: nat)
    requires m > 0 && s > 0
    ensures m * s > 0
    ensures a / (m * s) == a / m / s
    ensures a % (m * s) == a / m % s * m + a % m
  {
    Nested(a, m, s, a / m, a % m, a / m / s, a / m % s);
  }

  lemma ModMod(p: nat, m: nat, k: nat)
    requires k > 0 && m > 0
    ensures m * k > 0 && p % (m * k) % m == p % m
    ensures p % (m * k) / m == p / m % k
  {
    DivDiv(p, m, k);
    DivUnique(p % (m * k), m, p / m % k, p % m);
  }
}
