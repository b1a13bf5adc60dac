/** The fixed-width unsigned integers of the modelled C++ code. */
module Words {
  type U8 = x: int | 0 <= x < 0x100
  type U16 = x: int | 0 <= x < 0x1_0000
  type U32 = x: int | 0 <= x < 0x1_0000_0000

  // The largest unsigned long of the 32-bit build.
  const ULONG_MAX := 0xFFFF_FFFF
}
