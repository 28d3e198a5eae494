/**
 Products of reals under a name, for sums and for floating-point arithmetic.
 */
module Reals {

  function Times(a: real, b: real): real {
    a * b
  }

  lemma Commutes(a: real, b: real)
    ensures Times(a, b) == Times(b, a)
  {
  }

  lemma Distributes(c: real, a: real, b: real)
    ensures Times(c, a + b) == Times(c, a) + Times(c, b)
  {
  }
}
