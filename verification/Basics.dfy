/** Small things several modules need. */
module Basics {
  type byte = x: int | 0 <= x < 0x100

  function Min(a: int, b: int): int {
    if a < b then a else b
  }

  function Max(a: int, b: int): int {
    if a > b then a else b
  }
}
