/** The two small value types the other modules share. */
module Wrappers {

  datatype Option<+T> = None | Some(value: T)

  /** An unsigned 8-bit character. */
  type byte = x: int | 0 <= x < 256
}
