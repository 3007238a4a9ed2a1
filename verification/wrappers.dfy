/** The Option and Result datatypes used across the model. */
module Wrappers {

  /** An optional value: an environment variable that may be unset. */
  datatype Option<+T> = None | Some(value: T)

  /** The outcome of an operation that either yields a value or raises an exception. */
  datatype Result<+R, +E> = Success(value: R) | Failure(error: E)
}
