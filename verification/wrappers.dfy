/** An optional value and a success-or-error result, used throughout the model. */
module Wrappers {

  /** A value that may be absent; `None` is "not specified", distinct from an empty string. */
  datatype Option<+T> = None | Some(value: T)

  /** The outcome of an operation that either yields a value or fails with an error. */
  datatype Result<+T, +E> = Success(value: T) | Failure(error: E)
}
