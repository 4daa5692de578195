/** Fixed-width unsigned integers of the host language, as ranges of mathematical integers. */
module Ints {

  const U8Limit: nat := 0x100
  const U16Limit: nat := 0x1_0000
  /** `u32::MAX`. */
  const U32Max: nat := 0xFFFF_FFFF

  type u8 = x: int | 0 <= x < U8Limit
  type u16 = x: int | 0 <= x < U16Limit
  type u32 = x: int | 0 <= x <= U32Max
}
