/** The arithmetic primitives of the exploration module: the distance between
    two marks and Python's floor division. */
module DistanceMath {

  /** `dist`: the absolute difference of two marks. */
  function Dist(a: int, b: int): (r: int)
    ensures r >= 0
    ensures r == a - b || r == b - a
  {
    if a >= b then a - b else b - a
  }

  /** `half`: `a // 2`. Dafny's `/` by a positive divisor already rounds
      towards minus infinity, like Python's `//`. */
  function Half(a: int): (r: int)
    ensures 2 * r <= a < 2 * r + 2
  {
    a / 2
  }

  /** `div`: `a // b`, which rounds towards minus infinity for either sign of
      `b`. Dafny's `/` is Euclidean, so a negative divisor is handled by
      negating both operands. */
  function Div(a: int, b: int): (r: int)
    requires b != 0
    ensures b > 0 ==> r * b <= a < r * b + b
    ensures b < 0 ==> r * b + b < a <= r * b
  {
    if b > 0 then a / b else (-a) / (-b)
  }
}
