/** The octets that the encodings in this model produce and consume. */
module Bytes {

  newtype byte = x: int | 0 <= x < 256
}
