/** Shared vocabulary: optional values, machine words, and the ways a run can stop. */
module Prelude {
  datatype Option<+T> = None | Some(value: T)

  type u8 = x: int | 0 <= x < 0x100
  type u32 = x: int | 0 <= x < 0x1_0000_0000

  const TWO32: int := 0x1_0000_0000
  const U32_MAX: int := 0xffff_ffff
  const U64_MAX: int := 0xffff_ffff_ffff_ffff

  /** Addition as it happens in a guest register: 32 bits, wrapping. */
  function Add32(a: int, b: int): u32 {
    (a + b) % TWO32
  }
}
