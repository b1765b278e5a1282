/** Facts about Euclidean division used by the byte and batch arithmetic. */
module Arith {

  /** Euclidean division is unique. */
  lemma DivModUnique(x: int, m: int, q: int, r: int)
    requires m > 0 && 0 <= r < m && x == q * m + r
    ensures x / m == q && x % m == r
  {
    var q', r' := x / m, x % m;
    var d := q - q';
    assert d * m == r' - r by { assert d * m == q * m - q' * m; }
    if d > 0 {
      MulAtLeast(d, m);
      assert false;
    } else if d < 0 {
      MulAtLeast(-d, m);
      assert false;
    }
  }

  lemma MulAtLeast(a: int, m: int)
    requires a >= 1 && m > 0
    ensures a * m >= m
  {
  }
}
