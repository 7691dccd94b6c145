/** Integer facts the row and chunk arithmetic rests on. */
module Arith {

  /** Multiplying by a non-negative factor keeps the order. */
  lemma MulMono(a: int, b: int, q: int)
    requires a <= b && 0 <= q
    ensures a * q <= b * q
  {
    assert b * q - a * q == (b - a) * q;
  }

  /** Euclidean division by a positive divisor. */
  lemma DivMod(n: int, w: int)
    requires w >= 1
    ensures n == (n / w) * w + n % w && 0 <= n % w < w
  {
  }
}
