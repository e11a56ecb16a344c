/** Facts about Euclidean division that the encoders' proofs share. */
module Arithmetic {

  /** Euclidean division is determined by a quotient and a remainder in range. */
  lemma DivMod(v: int, q: int, r: int, d: int)
    requires d > 0 && 0 <= r < d && v == q * d + r
    ensures v / d == q && v % d == r
  {
    var q', r' := v / d, v % d;
    assert (q - q') * d == r' - r;
    if q > q' {
      MulAtLeast(q - q', d);
    } else if q < q' {
      MulAtLeast(q' - q, d);
    }
  }

  lemma MulAtLeast(k: int, d: int)
    requires k >= 1 && d > 0
    ensures k * d >= d
  {
  }
}
