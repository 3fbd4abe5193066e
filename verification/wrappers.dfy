/** Failure-carrying values used in place of JavaScript's `undefined`,
    `NaN` and thrown errors. */
module Wrappers {

  /** A value that may be absent (`undefined`, or `NaN` for numbers). */
  datatype Option<+T> = None | Some(value: T)

  /** Either a normal return or the message of a thrown `Error`. */
  datatype Result<+T, +E> = Success(value: T) | Failure(error: E)
}
