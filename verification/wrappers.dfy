/** Failure-carrying values shared by the model: a missing value, a result
    that is either a value or an error, and a pass/fail outcome. */
module Wrappers {

  /** A value that may be absent; stands for a nullable pointer. */
  datatype Option<+T> = None | Some(value: T)

  /** A value or the error that replaced it; stands for a thrown exception. */
  datatype Result<+T, +E> = Success(value: T) | Failure(error: E)

  /** The outcome of an operation that returns nothing but may throw. */
  datatype Outcome<+E> = Pass | Fail(error: E)
}
