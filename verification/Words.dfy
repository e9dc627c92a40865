/** The machine's 32-bit words. */
module Words {

  type Word = w: int | 0 <= w < 0x1_0000_0000

  /** The value that a signed variable has when its 32 bits are those of x. */
  function Signed(x: int): int { (x + 0x8000_0000) % 0x1_0000_0000 - 0x8000_0000 }
}
