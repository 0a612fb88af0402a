/** Machine words as numbers. */
module Words {
  type Byte = x: nat | x < 256

  /** A UTF-16 code unit. */
  type Unit = x: nat | x < 65536

  /** What a JavaScript shift leaves of `x`: a signed 32-bit word. */
  function Int32(x: int): (w: int)
    ensures -0x8000_0000 <= w < 0x8000_0000
  {
    (x + 0x8000_0000) % 0x1_0000_0000 - 0x8000_0000
  }
}
