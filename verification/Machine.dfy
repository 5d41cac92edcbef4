/** C integer types as subset types of int, and the conversions the code relies on. */
module Machine {

  datatype Option<+T> = None | Some(value: T)

  const TWO16: int := 0x1_0000
  const TWO32: int := 0x1_0000_0000

  type u8 = x: int | 0 <= x < 0x100
  type u16 = x: int | 0 <= x < 0x1_0000
  type u32 = x: int | 0 <= x < 0x1_0000_0000
  type i32 = x: int | -0x8000_0000 <= x < 0x8000_0000

  /** Conversion to unsigned int: reduction modulo 2^32, also for negative values. */
  function ToU32(x: int): u32 {
    x % 0x1_0000_0000
  }

  /** Conversion to a 16-bit unsigned integer. */
  function ToU16(x: int): u16 {
    x % 0x1_0000
  }

  /** Wrapping 32-bit addition. */
  function Add32(a: u32, b: int): u32 {
    (a + b) % 0x1_0000_0000
  }
}
