/** Machine words and pages. */
module Words {

  const TWO32: int := 0x1_0000_0000
  const TWO64: int := 0x1_0000_0000_0000_0000

  // uint32_t and uint8_t
  type Word = w: int | 0 <= w < 0x1_0000_0000
  type Byte = b: int | 0 <= b < 256

  // The number of the 4 KiB page of an address.
  function Page(a: Word): nat {
    a / 4096
  }
}
