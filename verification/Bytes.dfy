/** The unit of every buffer, file and bitmap of the model. */
module Bytes {

  type byte = x: int | 0 <= x < 256
}
