/** Bytes, unsigned 32-bit integers, and the larger and the smaller of two numbers. */
module Integers {
  const TWO32 := 0x1_0000_0000

  type Byte = b: int | 0 <= b < 256
  type U32 = n: int | 0 <= n < TWO32

  function Max(a: int, b: int): int {
    if a < b then b else a
  }

  function Min(a: int, b: int): int {
    if a < b then a else b
  }
}
