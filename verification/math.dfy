/**
  The kernel's `min` and `max` templates (util/math.hpp).

  Both compare with a strict inequality, so on a tie `max` and `min` return
  their SECOND argument; for integers the two are indistinguishable.
 */
module KMath {

  /** `max(a, b)`: `a` when `a > b`, otherwise `b`. */
  function Max(a: int, b: int): (r: int)
    ensures r >= a && r >= b
    ensures r == a || r == b
  {
    if a > b then a else b
  }

  /** `min(a, b)`: `a` when `a < b`, otherwise `b`. */
  function Min(a: int, b: int): (r: int)
    ensures r <= a && r <= b
    ensures r == a || r == b
  {
    if a < b then a else b
  }
}
