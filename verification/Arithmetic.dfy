// The few facts about products and quotients that the other modules name instead of leaving to search.
module Arithmetic {
  lemma Commute(x: int, y: int)
    ensures x * y == y * x
  {
  }

  lemma Reassociate(a: int, b: int, w: int)
    ensures (a * b) * w == a * (b * w) == b * (a * w)
  {
  }

  lemma Swap(x: int, y: int, z: int)
    ensures x * (y * z) == y * (x * z)
  {
  }

  lemma Exchange(a: int, b: int, c: int, d: int)
    ensures (a * b) * (c * d) == (a * c) * (b * d)
  {
  }

  lemma Distribute(x: int, y: int, z: int)
    ensures x * (y + z) == x * y + x * z
    ensures (y + z) * x == y * x + z * x
  {
  }

  lemma MulMonotone(x: int, y: int, z: int)
    requires x <= y && 0 <= z
    ensures x * z <= y * z
  {
  }

  lemma MulBound(x: int, m: int, y: int, n: int)
    requires 0 <= x <= m && 0 <= y <= n
    ensures 0 <= x * y <= m * n
  {
    MulMonotone(x, m, y);
    MulMonotone(y, n, m);
  }

  /** `a + x*p == b + y*p` with both low parts below `p` forces the digits to agree. */
  lemma DigitUnique(a: int, x: int, b: int, y: int, p: int)
    requires 0 <= a < p && 0 <= b < p
    requires a + x * p == b + y * p
    ensures x == y && a == b
  {
    assert (x - y) * p == b - a;
    if x > y {
      MulMonotone(1, x - y, p);
    } else if x < y {
      MulMonotone(x - y, -1, p);
    }
  }

  lemma Divide(n: int, d: int)
    requires d > 0
    ensures n == d * (n / d) + n % d && 0 <= n % d < d
  {
  }

  lemma QuotientUnique(n: int, d: int, q: int, r: int)
    requires 0 <= r < d && n == d * q + r
    ensures n / d == q && n % d == r
  {
    DigitUnique(n % d, n / d, r, q, d);
  }

  lemma MultipleOf(k: int, m: int)
    requires m > 0
    ensures m * k % m == 0
  {
    QuotientUnique(m * k, m, k, 0);
  }
}
