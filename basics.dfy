/** Small shared vocabulary: an optional value and an unsigned byte. */
module Basics {

  datatype Option<T> = None | Some(value: T)

  /** An unsigned 8-bit value, as delivered by input streams and the serial device. */
  newtype byte = x: int | 0 <= x < 256
}
