/** The unsigned byte of the byte-string formats. */
module Bytes {
  type byte = x: int | 0 <= x < 256
}
