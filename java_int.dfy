/** Java's 32-bit `int`, as used for menu ids, order ids and the order id counter. */
module JavaInt {
  const MinInt: int := -0x8000_0000
  const MaxInt: int := 0x7fff_ffff

  newtype int32 = x: int | -0x8000_0000 <= x < 0x8000_0000

  /**
   * The value a Java post-increment `c++` leaves in `c`: `c + 1` reduced to
   * 32 bits, which is one more except that the largest value wraps to the smallest.
   */
  function Increment(c: int32): (r: int32)
    ensures (r as int - c as int - 1) % 0x1_0000_0000 == 0
    ensures r as int == c as int + 1 || (c as int == MaxInt && r as int == MinInt)
  {
    if c as int == MaxInt then MinInt as int32 else c + 1
  }
}
