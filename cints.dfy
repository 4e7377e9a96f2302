/** The C integer types the allocator's arithmetic passes through. */
module CInts {
  const INT_MIN: int := -0x8000_0000
  const INT_MAX: int := 0x7fff_ffff
  const TWO_32: int := 0x1_0000_0000
  const TWO_63: int := 0x8000_0000_0000_0000
  const TWO_64: int := 0x1_0000_0000_0000_0000

  /** C `int`. */
  type Int32 = x: int | INT_MIN <= x <= INT_MAX

  /** `(uint64_t)x` for an `int`: a negative value wraps around to `2^64 + x`. */
  function ToU64(x: Int32): (r: int)
    ensures 0 <= r < TWO_64
    ensures (r - x) % TWO_64 == 0
    ensures x >= 0 ==> r == x
  {
    if x < 0 then x + TWO_64 else x
  }

  /**
   * The `int` an out-of-range sum wraps around to on a two's-complement
   * machine. Signed overflow is undefined in C; this is the usual outcome,
   * and what follows from an overflow in this model rests on it.
   */
  function Wrap32(x: int): (r: Int32)
    ensures (r - x) % TWO_32 == 0
    ensures INT_MIN <= x <= INT_MAX ==> r == x
    ensures INT_MAX < x <= INT_MAX + TWO_32 ==> r == x - TWO_32
  {
    var m := (x - INT_MIN) % TWO_32;
    m + INT_MIN
  }
}
