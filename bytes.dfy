/** Python's bytes: sequences of octets. */
module Bytes {

  type byte = b: int | 0 <= b < 256

  type Bytes = seq<byte>
}
