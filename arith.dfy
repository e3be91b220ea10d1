/** Integer helpers shared by the modules of this model: `Math.min` and
    `Math.max` on integers, and monotonicity of multiplication. */
module Arith {

  function Min(a: int, b: int): int { if a <= b then a else b }

  function Max(a: int, b: int): int { if a >= b then a else b }

  lemma MulMonotone(a: int, b: int, d: nat)
    ensures a <= b ==> a * d <= b * d
  {
  }
}
