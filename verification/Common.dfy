/** Small value types and byte arithmetic shared by the other modules. */
module Common {

  datatype Option<+T> = None | Some(value: T)

  const U32_MAX: int := 0xFFFF_FFFF
  const U64_MAX: int := 0xFFFF_FFFF_FFFF_FFFF

  type Byte = n: int | 0 <= n < 256
  type U32 = n: int | 0 <= n <= U32_MAX
  type U64 = n: int | 0 <= n <= U64_MAX
  type I32 = n: int | -0x8000_0000 <= n < 0x8000_0000
}
