/** The eight-bit bytes that every buffer holds. */
module Octets {
  type Byte = x: int | 0 <= x < 0x100
}
