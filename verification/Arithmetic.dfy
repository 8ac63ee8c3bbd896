/** The few non-linear facts about rows of equal width that the layout proofs rest on. */
module Arithmetic {

  lemma RowBelow(width: nat, a: int, k: int, b: int)
    requires a < b && k < width
    ensures a * width + k < b * width
  {
    assert a * width + width == (a + 1) * width;
    MulMonotone(a + 1, b, width);
  }

  lemma MulMonotone(a: int, b: int, width: nat)
    requires a <= b
    ensures a * width <= b * width
  {
    assert b * width - a * width == (b - a) * width;
  }

  lemma RowInjective(width: nat, a: int, k: nat, b: int, l: nat)
    requires k < width && l < width
    requires a * width + k == b * width + l
    ensures a == b && k == l
  {
    if a < b {
      RowBelow(width, a, k, b);
    } else if b < a {
      RowBelow(width, b, l, a);
    }
  }

  /** Quotient and remainder are the only way to write a number as a row and a column. */
  lemma DivModUnique(a: int, width: nat, q: int, r: nat)
    requires r < width && a == q * width + r
    ensures a / width == q && a % width == r
  {
    assert a == (a / width) * width + a % width;
    RowInjective(width, a / width, a % width, q, r);
  }
}
