/** The two pieces of C integer semantics the seeding routines depend on. */
module CTypes {

  /** `uint8_t`: an unsigned 8-bit value. Arithmetic on it happens in `int`
      (integer promotion), so it is a subset of `int` rather than a newtype. */
  type uint8 = x: int | 0 <= x < 0x100

  /** Conversion of an `int` argument to a `uint8_t` parameter: the value
      modulo 2^8 (Dafny's `%` never returns a negative remainder, which is
      exactly the C rule for conversion to an unsigned type). */
  function ToUint8(v: int): (r: uint8)
    ensures v - r == (v / 0x100) * 0x100
    ensures 0 <= v < 0x100 ==> r == v
  {
    v % 0x100
  }

  /** C's `/` on `int`: the quotient is truncated toward zero, where Dafny's
      Euclidean `/` would round a negative dividend down. */
  function CDiv(a: int, b: int): (q: int)
    requires b > 0
    ensures a >= 0 ==> q * b <= a < q * b + b
    ensures a < 0 ==> q * b >= a > q * b - b
  {
    if a >= 0 then a / b else -((-a) / b)
  }
}
