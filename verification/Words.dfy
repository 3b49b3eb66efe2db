/**
 The 32-bit words of the machine: unsigned, and the same bits read as signed.
 */
module Words {

  const TWO31 := 0x8000_0000
  const TWO32 := 0x1_0000_0000

  type uint32 = x: nat | x < TWO32

  // The int32 with the low 32 bits of a number.
  function S32(x: int): int {
    if x % TWO32 < TWO31 then x % TWO32 else x % TWO32 - TWO32
  }

  // The uint32 with the bits of an int32.
  function U32(x: int): nat {
    x % TWO32
  }
}
