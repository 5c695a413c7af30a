/** Failure-carrying wrapper types shared by the model. */
module Wrappers {

  datatype Option<+T> = None | Some(value: T)

  /** A computed value, or the error that stopped the computation. */
  datatype Result<+R, +E> = Success(value: R) | Failure(error: E)

  /** The completion of an operation that returns nothing: it passed, or it raised `error`. */
  datatype Outcome<+E> = Pass | Fail(error: E)
}
