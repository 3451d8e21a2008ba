/** Failure-carrying results: the list signals its two exceptions through these. */
module Outcomes {

  /** A value, or the error that prevented computing it. */
  datatype Result<+R, +E> = Success(value: R) | Failure(error: E)

  /** Success or failure of an operation that returns nothing. */
  datatype Outcome<+E> = Pass | Fail(error: E)

  datatype Option<+T> = None | Some(value: T)
}
