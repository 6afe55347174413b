/** Machine words and the option type shared by the modules of the model. */
module Machine {

  const U32: int := 0x1_0000_0000

  type u32 = x: int | 0 <= x < 0x1_0000_0000

  type u16 = x: int | 0 <= x < 0x1_0000

  type u8 = x: int | 0 <= x < 0x100

  /** The byte that ends a C string. */
  const NUL: char := '\0'

  /** A C result that may be NULL, or a call that may never return. */
  datatype Option<+T> = None | Some(value: T)

  /** uint32_t addition. */
  function Add32(a: u32, b: u32): u32 {
    if a + b < U32 then a + b else a + b - U32
  }

  /** uint32_t subtraction. */
  function Sub32(a: u32, b: u32): u32 {
    if a >= b then a - b else a - b + U32
  }
}
