/**
 The machine integers of the target: 64-bit unsigned long, 32-bit int.
 */
module Machine {

  const WORD := 0x1_0000_0000_0000_0000

  const WORD32 := 0x1_0000_0000

  // One more than the largest int.
  const INT_LIMIT := 0x8000_0000

  type int32 = x: int | -INT_LIMIT <= x < INT_LIMIT

  // Conversion to int keeps the low 32 bits.
  function CInt(x: int): (r: int32)
    ensures 0 <= x < INT_LIMIT ==> r == x
    ensures INT_LIMIT <= x < WORD32 ==> r == x - WORD32
  {
    (x + INT_LIMIT) % WORD32 - INT_LIMIT
  }
}
