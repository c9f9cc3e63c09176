/** Failure-compatible wrappers used where the source returns `None` or raises. */
module Wrappers {

  /** A value that may be absent, as Python's `None`. */
  datatype Option<+T> = None | Some(value: T)

  /** A successful value, or the failure that the source raises as an exception. */
  datatype Result<+R, +E> = Success(value: R) | Failure(error: E)
}
