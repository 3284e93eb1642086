/** Facts about products, quotients and remainders. */
module Arithmetic {

  lemma DivMod(n: nat, m: nat)
    requires m >= 1
    ensures n == n / m * m + n % m && n % m < m && n / m <= n
  {
  }

  lemma Distributes(m: nat, a: nat, b: nat)
    ensures (a + b) * m == a * m + b * m
  {
  }

  lemma AtLeast(m: nat, a: nat)
    requires m >= 1
    ensures a <= a * m
  {
  }

  /** Multiples of `m` are at least `m` apart. */
  lemma MultiplesApart(p: nat, q: nat, m: nat)
    ensures p <= q ==> p * m <= q * m
    ensures p > q ==> p * m >= q * m + m
  {
    if p <= q {
      Distributes(m, p, q - p);
    } else {
      Distributes(m, q + 1, p - q - 1);
      Distributes(m, q, 1);
    }
  }

  lemma QuotientIs(n: nat, m: nat, q: nat)
    requires m >= 1 && q * m <= n < q * m + m
    ensures n / m == q && n % m == n - q * m
  {
    DivMod(n, m);
    MultiplesApart(q, n / m, m);
    MultiplesApart(n / m, q, m);
  }

  /** The two parts of a number. */
  lemma Parts(x: nat, m: nat, q: nat, r: nat)
    requires m >= 1 && r < m && x == q * m + r
    ensures x / m == q && x % m == r
  {
    QuotientIs(x, m, q);
  }

  lemma EvenMultiple(h: nat, x: nat)
    ensures (h * 2 + x) % 2 == x % 2
  {
  }
}
