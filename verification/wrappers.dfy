/** Failure-carrying results used by the style registry. */
module Wrappers {

  /** A value that may be absent: an omitted argument, a missing key. */
  datatype Option<+T> = None | Some(value: T)

  /** The outcome of an operation that may throw instead of returning. */
  datatype Result<+R, +E> = Success(value: R) | Failure(error: E)
}
