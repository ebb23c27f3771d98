/** Failure-carrying datatypes shared by the model: an optional value and a
    value-or-error result. */
module Wrappers {

  /** A value that may be absent, as Python's `None`. */
  datatype Option<+T> = None | Some(value: T)

  /** Either a value or the error that was raised instead of returning one. */
  datatype Result<+R, +E> = Success(value: R) | Failure(error: E)
}
