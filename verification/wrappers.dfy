/** Failure-compatible datatypes shared by the whole model. */
module Wrappers {

  /** A value that may be absent (Python's `None`). */
  datatype Option<+T> = None | Some(value: T)

  /** Either a computed value or the error the source raises instead. */
  datatype Result<+R, +E> = Success(value: R) | Failure(error: E)
}
