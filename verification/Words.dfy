/** Machine words as ranges of the integers: every wrap-around or truncation the
    program performs is written out where it happens. */
module Words {

  const TWO_POW_32: int := 0x1_0000_0000
  const TWO_POW_64: int := 0x1_0000_0000_0000_0000
  const TWO_POW_127: int := 0x8000_0000_0000_0000_0000_0000_0000_0000
  const TWO_POW_128: int := 0x1_0000_0000_0000_0000_0000_0000_0000_0000

  const TWO_POW_256: int := TWO_POW_128 * TWO_POW_128

  type u8 = x: int | 0 <= x < 0x100
  type u32 = x: int | 0 <= x < TWO_POW_32
  /** A C++ `int`. */
  type i32 = x: int | -0x8000_0000 <= x < 0x8000_0000
  type u64 = x: int | 0 <= x < TWO_POW_64
  type u128 = x: int | 0 <= x < TWO_POW_128
  type i128 = x: int | -TWO_POW_127 <= x < TWO_POW_127

  /** A 32-byte value, read as one big-endian number. */
  type Bytes32 = x: int | 0 <= x < TWO_POW_256
}
