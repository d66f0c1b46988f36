/** The `Option` and `Result` datatypes used throughout the model. */
module Wrappers {

  /** A value that may be missing; Go's `nil` results become `None`. */
  datatype Option<+T> = None | Some(value: T)

  /** A value or an error; Go's `(value, error)` pairs become `Result`. */
  datatype Result<+R, +E> = Success(value: R) | Failure(error: E)
}
