/** The machine's integer ranges. */
module Words {
  const INT32_MAX: nat := 0x7FFF_FFFF
  const U32: nat := 0x1_0000_0000
  const U64: nat := 0x1_0000_0000_0000_0000
}
