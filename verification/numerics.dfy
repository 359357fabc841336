/**
 Scalar helpers shared by the occupation models: integer powers, the
 Python 2 rounding used by the halo-type classifier, the [0,1] clamp applied
 to polynomial fractions, and the length of a Python slice `xs[0:k]`.
 */
module Numerics {

  /** x^n for a natural exponent (numpy's `x**n`; `0**0` is 1). */
  function Pow(x: real, n: nat): real
  {
    if n == 0 then 1.0 else x * Pow(x, n - 1)
  }

  /** Python 2 `round`: nearest integer, halves rounded away from zero. */
  function Round(x: real): (r: int)
    ensures x - 0.5 <= r as real <= x + 0.5
    ensures r as real - x == 0.5 ==> x > 0.0
    ensures x - r as real == 0.5 ==> x < 0.0
  {
    if x >= 0.0 then (x + 0.5).Floor else -((-x + 0.5).Floor)
  }

  /** Rounding a value in [0, n] for a whole number n stays in [0, n]. */
  lemma RoundWithin(x: real, n: nat)
    requires 0.0 <= x <= n as real
    ensures 0 <= Round(x) <= n
  {
  }

  /** Number of elements of `xs[0:k]` for a sequence of length n, with
      Python's treatment of a negative or too-large stop index. */
  function SliceStop(k: int, n: nat): (r: nat)
    ensures r <= n
    ensures 0 <= k <= n ==> r == k
    ensures k > n ==> r == n
    ensures k < 0 ==> r + (-k) == n || (r == 0 && -k >= n)
  {
    if k >= 0 then (if k <= n then k else n)
    else if n + k >= 0 then n + k else 0
  }

  /** The [0,1] clamp of the polynomial type-1 and quenched fractions:
      negative values become 0, values above 1 become 1. */
  function Clamp01(x: real): (r: real)
    ensures 0.0 <= r <= 1.0
    ensures 0.0 <= x <= 1.0 ==> r == x
    ensures x < 0.0 ==> r == 0.0
    ensures x > 1.0 ==> r == 1.0
  {
    if x < 0.0 then 0.0 else if x > 1.0 then 1.0 else x
  }

  /** Clamping twice is clamping once. */
  lemma ClampIdempotent(x: real)
    ensures Clamp01(Clamp01(x)) == Clamp01(x)
  {
  }
}
