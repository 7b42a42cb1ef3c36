/**
 * Java's 32-bit `int` and the three operators of the library whose Java meaning differs
 * from mathematical integers: `+` wraps around, `/` and `%` truncate toward zero, and
 * `Math.abs` overflows at `Integer.MIN_VALUE`.
 */
module JavaInt {

  const MinInt32: int := -0x8000_0000
  const MaxInt32: int := 0x7FFF_FFFF

  type Int32 = x: int | -0x8000_0000 <= x < 0x8000_0000

  /** Mathematical absolute value. */
  function Abs(x: int): nat
  {
    if x < 0 then -x else x
  }

  /** The result of a 32-bit `+`, `-` or `*`: the representative of `x` modulo 2^32 in int range. */
  function Wrap32(x: int): (r: Int32)
    ensures (x - r) % 0x1_0000_0000 == 0
    ensures MinInt32 <= x <= MaxInt32 ==> r == x
  {
    (x + 0x8000_0000) % 0x1_0000_0000 - 0x8000_0000
  }

  /** Java's `a / n` for a positive divisor: the quotient truncated toward zero. */
  function JavaDiv(a: int, n: int): (r: int)
    requires n > 0
    ensures Abs(r) == Abs(a) / n
    ensures a >= 0 ==> r >= 0
    ensures a < 0 ==> r <= 0
  {
    if a >= 0 then a / n else -((-a) / n)
  }

  /** Java's `a % n` for a positive divisor: the remainder takes the sign of the dividend. */
  function JavaRem(a: int, n: int): (r: int)
    requires n > 0
    ensures a == n * JavaDiv(a, n) + r
    ensures a >= 0 ==> 0 <= r < n
    ensures a < 0 ==> -n < r <= 0
  {
    if a >= 0 then a % n else -((-a) % n)
  }

  /** Java's `Math.abs(int)`: the negation of `Integer.MIN_VALUE` overflows back to itself. */
  function JavaAbs(x: Int32): (r: Int32)
    ensures x != MinInt32 ==> r == Abs(x)
    ensures x == MinInt32 ==> r == MinInt32
  {
    Wrap32(Abs(x))
  }
}
