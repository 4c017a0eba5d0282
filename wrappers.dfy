/** Failure-carrying wrappers shared by the other modules. */
module Wrappers {

  /** An optional value; `None` also stands for Go's nil error. */
  datatype Option<+T> = None | Some(value: T)

  /** A value or an error. */
  datatype Result<+T, +E> = Success(value: T) | Failure(error: E)
}
