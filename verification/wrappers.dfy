/** Failure-carrying return values shared by the modules of the loan model. */
module Wrappers {

  /** A value that may be absent: JavaScript's `null` / `undefined` results. */
  datatype Option<+T> = None | Some(value: T)

  /** A value or the reason it could not be produced: a thrown error or a rejected input. */
  datatype Result<+T, +E> = Success(value: T) | Failure(error: E)
}
