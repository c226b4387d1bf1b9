/** Absence and failure values shared by the state-machine model. */
module Wrappers {

  /** A value that may be absent; stands in for the source's `null` slots. */
  datatype Option<+T> = None | Some(value: T)

  /** Either a produced value or an error; stands in for a constructor that may throw. */
  datatype Result<+R, +E> = Success(value: R) | Failure(error: E)

  /** Pass, or a failure carrying an error; stands in for a `void` method that may throw. */
  datatype Outcome<+E> = Pass | Fail(error: E)
}
