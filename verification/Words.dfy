/** Fixed-width unsigned integers of the source, written as ranges of `int`. */
module Words {

  datatype Option<+T> = None | Some(value: T)

  const TWO15: int := 0x8000
  const TWO16: int := 0x1_0000
  const TWO31: int := 0x8000_0000
  const TWO32: int := 0x1_0000_0000

  type u8 = x: int | 0 <= x < 256
  type u16 = x: int | 0 <= x < TWO16
  type u32 = x: int | 0 <= x < TWO32

  /** `x` cut to 32 bits. */
  function Mod32(x: int): u32 { x % 0x1_0000_0000 }

  /** `x + 1` in 32-bit arithmetic. */
  function Inc32(x: u32): u32 {
    if x == TWO32 - 1 then 0 else x + 1
  }

  /** The value of a 32-bit word read as a two's complement `int32_t`. */
  function Signed32(x: u32): int {
    if x < TWO31 then x else x - TWO32
  }

  /** The value of a 16-bit word read as a two's complement `int16_t`. */
  function Signed16(x: u16): int {
    if x < TWO15 then x else x - TWO16
  }
}
