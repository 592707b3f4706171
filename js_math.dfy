/**
 * The JavaScript number operations the store applies to whole numbers:
 * the remainder operator `%` and `Math.ceil` of a quotient.
 */
module JsMath {

  /**
   * `a % b` in JavaScript: the remainder of a division truncated toward zero,
   * so it carries the sign of `a`; on a non-negative dividend it agrees with
   * Dafny's Euclidean `%`, which never goes negative.
   */
  function Rem(a: int, b: int): (r: int)
    requires b > 0
    ensures a >= 0 ==> 0 <= r < b && r == a % b
    ensures a < 0 ==> -b < r <= 0
  {
    if a >= 0 then a % b else -((-a) % b)
  }

  /** `Math.ceil(a / b)` for a whole dividend and a positive whole divisor: the least r with a <= r * b. */
  function CeilDiv(a: nat, b: nat): (r: nat)
    requires b > 0
    ensures a <= r * b
    ensures r > 0 ==> (r - 1) * b < a
  {
    if a % b == 0 then a / b else a / b + 1
  }
}
