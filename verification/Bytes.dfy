/** Bytes and byte strings. */
module Bytes {
  type u8 = x: int | 0 <= x < 256
}
