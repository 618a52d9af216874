/** Optional values and results with an error, used for Python's `None`
    and for the exceptions the client raises, and the byte type shared by
    image data and colour channels. */
module Wrappers {

  datatype Option<+T> = None | Some(value: T)

  datatype Result<+R, +E> = Success(value: R) | Failure(error: E)

  /** An unsigned 8-bit value. */
  type Byte = x: int | 0 <= x < 256
}
