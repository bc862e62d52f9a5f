/** Division of a number given as quotient and remainder. */
module Arithmetic {
  lemma Divides(x: int, k: int, q: int, r: int)
    requires k > 0 && x == q * k + r && 0 <= r < k
    ensures x / k == q && x % k == r
  {
    var d := x / k - q;
    assert d * k == r - x % k;
    if d >= 1 {
      Grows(d, 1, k);
    } else if d <= -1 {
      Grows(-1, d, k);
    }
  }

  lemma Grows(a: int, b: int, k: int)
    requires a >= b && k > 0
    ensures a * k >= b * k
  {
    assert (a - b) * k >= 0;
  }
}
