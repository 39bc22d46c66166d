/** Facts about division that the solver needs spelled out. */
module Arithmetic {

  lemma Apart(q: int, q': int, m: int, r: int, r': int)
    requires q * m + r == q' * m + r' && 0 <= r < m && 0 <= r' < m
    ensures q == q' && r == r'
  {
    if q > q' {
      AtLeast(q - q', m);
    } else if q < q' {
      AtLeast(q' - q, m);
    }
  }

  lemma AtLeast(a: int, m: int)
    requires a >= 1 && m >= 0
    ensures a * m >= m
  {
  }

  lemma Remainder(x: int, q: int, m: int, r: int)
    requires x == q * m + r && 0 <= r < m
    ensures x % m == r && x / m == q
  {
    var q', r' := x / m, x % m;
    Apart(q, q', m, r, r');
  }
}
