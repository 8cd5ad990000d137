/** Optional values and error-carrying results, standing in for Go's nil pointers
    and `error` returns. */
module Wrappers {

  /** A value that may be absent (a nil pointer or nil map in Go). */
  datatype Option<+T> = None | Some(value: T)

  /** The outcome of an operation that may fail with an error. */
  datatype Result<+R, +E> = Ok(value: R) | Err(error: E)
}
