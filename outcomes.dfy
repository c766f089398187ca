/** Success/failure values that stand in for the exceptions the catalog throws. */
module Outcomes {

  /** A value that may be absent; None stands for a null reference. */
  datatype Option<+T> = None | Some(value: T)

  /** The outcome of an operation that returns nothing but may throw. */
  datatype Outcome<+E> = Pass | Fail(error: E)

  /** The outcome of an operation that produces a value or throws. */
  datatype Result<+T, +E> = Ok(value: T) | Err(error: E)
}
