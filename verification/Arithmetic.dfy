/** Two facts about products. */
module Arithmetic {

  lemma Commutes(a: int, b: int)
    ensures a * b == b * a
  {
  }

  lemma MulStep(n: int, k: int)
    ensures n * k == n * (k - 1) + n
  {
  }
}
