/** JavaScript integer arithmetic that differs from Dafny's. */
module JsMath {

  /** The quotient of a division truncated toward zero, as JavaScript's `Math.trunc(a / b)`. */
  function Quot(a: int, b: int): int
    requires b > 0
  {
    if a >= 0 then a / b else -((-a) / b)
  }

  /**
   * JavaScript's `%`: the remainder of a division truncated toward zero, so
   * it carries the sign of the dividend (Dafny's `%` is never negative).
   * The components only ever divide by an array length, which is positive.
   */
  function Rem(a: int, b: int): (r: int)
    requires b > 0
    ensures a == b * Quot(a, b) + r
    ensures 0 <= a ==> 0 <= r < b
    ensures a < 0 ==> -b < r <= 0
  {
    if a >= 0 then a % b
    else
      var q := (-a) / b;
      assert -a == b * q + (-a) % b;
      assert b * -q == -(b * q);
      -((-a) % b)
  }
}
