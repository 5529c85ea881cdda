/** Raw file contents are sequences of octets. */
module Bytes {

  newtype byte = b: int | 0 <= b < 256
}
