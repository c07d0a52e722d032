/** Facts about products that the solver does not find on its own. */
module Arithmetic {

  /** Multiplying by a non-negative factor keeps the order. */
  lemma MulMono(m: nat, x: int, y: int)
    requires x <= y
    ensures m * x <= m * y
  {
  }
}
