/** Bytes, and those of U+FFFD. */
module Octets {
  type Byte = b: int | 0 <= b < 256

  const REPLACEMENT: seq<Byte> := [0xEF, 0xBF, 0xBD]
}
