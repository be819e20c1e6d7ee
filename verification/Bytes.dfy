/** The bytes that the hash, checksum and ring models work on. */
module Bytes {
  type Byte = b: int | 0 <= b < 256
}
