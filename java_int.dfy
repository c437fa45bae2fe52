/** Java's 32-bit `int`, and two's-complement wrap-around for the few places where it matters. */
module JavaInt {
  const MIN_VALUE: int := -0x8000_0000
  const MAX_VALUE: int := 0x7FFF_FFFF

  type Int32 = x: int | -0x8000_0000 <= x <= 0x7FFF_FFFF

  predicate InRange(x: int) {
    MIN_VALUE <= x <= MAX_VALUE
  }

  /**
   * The `int` that Java's `+` and `-` produce for the mathematical result `x`
   * of adding or subtracting two `int`s, and subtracting 1 more: the result
   * modulo 2^32, brought into the signed range.
   */
  function Wrap(x: int): (r: Int32)
    requires -0x1_0000_0001 <= x <= 0x1_0000_0001
    ensures r == x || r == x - 0x1_0000_0000 || r == x + 0x1_0000_0000
    ensures InRange(x) ==> r == x
  {
    if x > MAX_VALUE then x - 0x1_0000_0000
    else if x < MIN_VALUE then x + 0x1_0000_0000
    else x
  }
}
