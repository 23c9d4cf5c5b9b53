/** Option and Result, and the byte type shared by every codec. */
module Wrappers {

  datatype Option<+T> = None | Some(value: T)

  datatype Result<+T, +E> = Ok(value: T) | Err(error: E)

  /** An octet, kept as an integer so that the codecs can use plain arithmetic. */
  type byte = x: int | 0 <= x < 256
}
