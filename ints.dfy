/** Machine integer ranges the text path works with. */
module Ints {
  /** An `unsigned char`. */
  type byte = b: int | 0 <= b < 0x100

  /** A `uint32_t`. */
  type uint32 = x: int | 0 <= x < 0x1_0000_0000

  datatype Option<T> = None | Some(value: T)

  /** `std::min`. */
  function Min(a: int, b: int): int
  {
    if a <= b then a else b
  }
}
