/** Python `bytes` values, as sequences of octets. */
module Bytes {

  type Byte = b: int | 0 <= b < 256
}
