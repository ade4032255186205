/** Types shared by the components. */
module Basics {
  datatype Option<+T> = None | Some(value: T)

  type u8 = x: int | 0 <= x < 0x100
  type u16 = x: int | 0 <= x < 0x1_0000

  const MAX_UINT64: int := 0xFFFF_FFFF_FFFF_FFFF

  type u64 = x: int | 0 <= x <= MAX_UINT64
}
