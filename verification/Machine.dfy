/** Fixed-width unsigned integers of the C and Rust sources. */
module Machine {
  import opened ModArith

  newtype uint8 = x: int | 0 <= x < 0x100
  newtype uint16 = x: int | 0 <= x < 0x1_0000
  newtype uint32 = x: int | 0 <= x < 0x1_0000_0000
  newtype uint64 = x: int | 0 <= x < 0x1_0000_0000_0000_0000

  lemma ProductFits(x: uint32, y: uint32)
    ensures 0 <= (x as int) * (y as int) < 0x1_0000_0000_0000_0000
  {
    MulMonotone(0, y as int, x as int);
    MulMonotone(y as int, 0xFFFF_FFFF, x as int);
  }
}
