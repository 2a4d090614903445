/** The unsigned machine integers; Dafny checks every operation on them for wrap-around. */
module Machine {
  newtype uint32 = x: int | 0 <= x < 0x1_0000_0000
  newtype uint64 = x: int | 0 <= x < 0x1_0000_0000_0000_0000
}
