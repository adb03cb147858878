/** Number representations the game shares: the byte cells of a Uint8Array
    and the few JavaScript number operations the core relies on. */
module Numeric {

  /** One cell of a Uint8Array. */
  newtype byte = x: int | 0 <= x < 0x100

  /** Number.MAX_SAFE_INTEGER, the largest integer a JavaScript number holds exactly. */
  const MaxSafeInteger: int := 0x1F_FFFF_FFFF_FFFF

  /** Math.ceil on a number. */
  function Ceil(n: real): (r: int)
    ensures n <= r as real < n + 1.0
  {
    -((-n).Floor)
  }

  /** JavaScript's `%` on integers: the remainder truncates toward zero,
      so it carries the sign of the dividend. */
  function JsRem(a: int, b: int): (r: int)
    requires b > 0
    ensures a >= 0 ==> 0 <= r < b
    ensures a < 0 ==> -b < r <= 0
  {
    if a >= 0 then a % b else -((-a) % b)
  }

  function Min(a: int, b: int): int { if a <= b then a else b }
}
