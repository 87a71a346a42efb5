/** Fixed-width integers.  Every arithmetic operation on these types carries the
    obligation that its result fits, so code written with them has no overflow. */
module MachineInts {
  newtype int32 = x: int | -0x8000_0000 <= x < 0x8000_0000
  newtype int64 = x: int | -0x8000_0000_0000_0000 <= x < 0x8000_0000_0000_0000
  newtype uint8 = x: int | 0 <= x < 0x100
}
