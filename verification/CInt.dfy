/** The `int` of C where it matters: 32 bits, and conversions that keep the low bits. */
module CInt {
  const INT_MAX: int := 0x7FFF_FFFF
  const INT_MIN: int := -0x8000_0000

  /** One more than the greatest int, 2 GB as a size. */
  const TWO_GB: nat := 0x8000_0000

  type Int32 = i: int | INT_MIN <= i <= INT_MAX

  /** The conversion to int: the low 32 bits. */
  function ToInt(n: int): Int32 {
    var low := n % 0x1_0000_0000;
    if low < 0x8000_0000 then low else low - 0x1_0000_0000
  }

  /** The conversion of an int to size_t. */
  function ToSize(i: Int32): nat { if i < 0 then i + 0x1_0000_0000_0000_0000 else i }

  /** A number survives the conversion if and only if it is an int. */
  lemma ToIntKeeps(n: int)
    ensures ToInt(n) == n <==> INT_MIN <= n <= INT_MAX
    ensures n >= 0 ==> ToInt(n) <= n
  {
  }

  /** Only the low bits of a summand count. */
  lemma ToIntSum(a: int, b: int)
    ensures ToInt(ToInt(a) + b) == ToInt(a + b)
  {
  }
}
