/** Option and Result types used for the library's "absent" and error returns. */
module Wrappers {

  /** A value that may be absent; Go's `nil` return from `Get`. */
  datatype Option<+T> = None | Some(value: T)

  /** Either a value or an error; Go's `(T, error)` return pairs. */
  datatype Result<+T, +E> = Ok(value: T) | Err(error: E)
}
