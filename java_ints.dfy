/** Java's fixed-width integers, shared by the modules of this model. */
module JavaInts {

  const INT_MIN: int := -0x8000_0000
  const INT_MAX: int := 0x7fff_ffff
  const LONG_MIN: int := -0x8000_0000_0000_0000
  const LONG_MAX: int := 0x7fff_ffff_ffff_ffff

  /** A Java int. */
  type Int = x: int | INT_MIN <= x <= INT_MAX

  /** A Java long. */
  type Long = x: int | LONG_MIN <= x <= LONG_MAX

  /**
   * A value narrowed to a Java int: the low 32 bits read as a signed value, which is what
   * int arithmetic that overflows and the cast from long to int both produce.
   */
  function ToInt(x: int): (r: Int)
    ensures (r - x) % 0x1_0000_0000 == 0
    ensures INT_MIN <= x <= INT_MAX ==> r == x
  {
    (x - INT_MIN) % 0x1_0000_0000 + INT_MIN
  }
}
