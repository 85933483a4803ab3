/** Register-address encoding for multi-byte access. */
module Registers {
  import opened Hal

  /** `Reg |= 0x80` on the 8-bit register address: bit 7 (0x80) set, which
      the sensors read as "auto-increment the address", bits 0-6 kept. On a
      byte this is 0x80 plus the low seven bits. */
  function SetMultiByteBit(reg: Byte): (flagged: Byte)
    ensures flagged >= 0x80
    ensures flagged % 0x80 == reg % 0x80
    ensures reg >= 0x80 ==> flagged == reg
  {
    0x80 + reg % 0x80
  }
}
