/** Products, quotients and remainders of natural numbers. */
module Arith {

  lemma MulMono(a: nat, b: nat, m: nat)
    requires a <= b
    ensures a * m <= b * m
  {
    assert (b - a) * m >= 0;
  }

  lemma MulAtLeast(d: nat, m: nat)
    requires d > 0
    ensures d * m >= m
  {
    MulMono(1, d, m);
  }

  lemma MulAssoc(a: nat, b: nat, c: nat)
    ensures (a * b) * c == a * (b * c)
  {
  }

  /** Quotient and remainder are unique. */
  lemma QuotientUnique(q: nat, r: nat, q': nat, r': nat, m: nat)
    requires q * m + r == q' * m + r' && r < m && r' < m
    ensures q == q' && r == r'
  {
    if q < q' {
      MulMono(q + 1, q', m);
    } else if q' < q {
      MulMono(q' + 1, q, m);
    }
  }

  lemma Quotient(x: nat, m: nat)
    requires m > 0
    ensures x / m >= 0 && 0 <= x % m < m
    ensures (x / m) * m + x % m == x
  {
  }

  lemma DivMod(q: nat, m: nat, r: nat)
    requires r < m
    ensures (q * m + r) / m == q && (q * m + r) % m == r
  {
    var x := q * m + r;
    Quotient(x, m);
    QuotientUnique(q, r, x / m, x % m, m);
  }

  lemma DivExact(q: nat, m: nat)
    requires m > 0
    ensures (m * q) / m == q
  {
    DivMod(q, m, 0);
    assert m * q == q * m + 0;
  }
}
