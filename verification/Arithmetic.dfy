/** Products and quotients, in the steps in which the other modules reason about them. */
module Arithmetic {

  lemma MulAtMost(a: nat, b: nat, c: nat)
    requires a <= b
    ensures a * c <= b * c
  {
  }

  lemma MulLess(a: nat, b: nat, c: nat)
    requires a < b
    ensures a * c + c <= b * c
  {
    MulAtMost(a + 1, b, c);
    assert (a + 1) * c == a * c + c;
  }

  lemma MulNat(a: nat, b: nat)
    ensures a * b >= 0
  {
  }

  lemma MulStep(m: int, d: int, d': int)
    requires 0 < m && d < d'
    ensures m * d + m <= m * d'
  {
    var k: nat := d' - d - 1;
    assert d' == d + 1 + k;
    MulNat(m, k);
    assert m * (d + 1 + k) == m * d + m + m * k;
  }

  lemma QuotientUnique(m: int, d: int, r: int, d': int, r': int)
    requires 0 <= r < m && 0 <= r' < m
    requires m * d + r == m * d' + r'
    ensures d == d' && r == r'
  {
    if d < d' {
      MulStep(m, d, d');
    } else if d' < d {
      MulStep(m, d', d);
    }
  }

  /** A quotient and a remainder are what they multiply and add up to. */
  lemma ModUnique(x: int, m: int, d: int, r: int)
    requires 0 <= r < m
    requires x == m * d + r
    ensures x % m == r && x / m == d
  {
    QuotientUnique(m, x / m, x % m, d, r);
  }
}
