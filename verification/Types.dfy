/** Machine integer ranges and byte characters shared by all components. */
module Types {
  type byte = x: int | 0 <= x < 0x100
  type uint16 = x: int | 0 <= x < 0x1_0000
  type uint32 = x: int | 0 <= x < 0x1_0000_0000
  type int32 = x: int | -0x8000_0000 <= x < 0x8000_0000

  const MAX_UINT32: uint32 := 0xFFFF_FFFF

  /** `x++` on an unsigned 32-bit variable. */
  function Next(x: uint32): uint32 {
    if x == MAX_UINT32 then 0 else x + 1
  }

  /** Conversion of a mathematical integer to an unsigned 32-bit word. */
  function ToUint32(x: int): uint32 {
    x % 0x1_0000_0000
  }

  /** The signed reading of a 32-bit word. */
  function ToInt32(x: uint32): int32 {
    if x < 0x8000_0000 then x else x - 0x1_0000_0000
  }

  function Min(a: int, b: int): int {
    if a <= b then a else b
  }

  function Max(a: int, b: int): int {
    if a >= b then a else b
  }
}
