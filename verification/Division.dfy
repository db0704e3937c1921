/** Quotients and remainders of products, which the solver does not find by itself. */
module Division {
  lemma AtLeast(a: int, m: nat)
    ensures a >= 1 ==> a * m >= m
    ensures a <= -1 ==> a * m + m <= 0
  {
  }

  lemma SameQuotient(q: int, r: nat, q': int, r': nat, m: nat)
    requires r < m && r' < m && q * m + r == q' * m + r'
    ensures q == q' && r == r'
  {
    AtLeast(q - q', m);
    assert (q - q') * m == r' - r;
  }

  lemma DivMod(q: nat, r: nat, m: nat)
    requires r < m
    ensures (q * m + r) / m == q && (q * m + r) % m == r
  {
    var n := q * m + r;
    assert n / m * m + n % m == n;
    SameQuotient(n / m, n % m, q, r, m);
  }

  lemma Quotient(n: nat, m: nat)
    requires m > 0
    ensures n / m * m + n % m == n && n % m < m && 0 <= n / m
  {
  }

  lemma Split(n: int, m: nat) returns (q: int, r: nat)
    requires m > 0
    ensures n == q * m + r && r < m && r == n % m
  {
    q, r := n / m, n % m;
  }

  lemma Distribute(a: int, b: int, m: nat)
    ensures (a + b) * m == a * m + b * m
  {
  }

  /** Adding to a remainder is adding to the number. */
  lemma AddMod(n: int, k: nat, m: nat)
    requires m > 0
    ensures (n + k) % m == (n % m + k) % m
  {
    var q, r := Split(n, m);
    var q', r' := Split(r + k, m);
    var q'', r'' := Split(n + k, m);
    Distribute(q, q', m);
    SameQuotient(q + q', r', q'', r'', m);
  }
}
