/** Machine integers as ranges of whole numbers. */
module MachineInts {
  type Byte = x: int | 0 <= x < 256

  const TWO_63: int := 0x8000_0000_0000_0000
  const TWO_64: int := 0x1_0000_0000_0000_0000
  const I64_MAX: int := TWO_63 - 1

  type I64 = x: int | -TWO_63 <= x < TWO_63
  type U64 = x: int | 0 <= x < TWO_64
}
