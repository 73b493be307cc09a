/** Optional values and success-or-failure results. */
module Wrappers {

  /** A value that may be absent (Go's nil function, or a call-site lookup that failed). */
  datatype Option<+T> = None | Some(value: T)

  /** The outcome of an operation that can fail: a returned error or a panic. */
  datatype Result<+R, +E> = Success(value: R) | Failure(error: E)
}
