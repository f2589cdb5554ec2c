/** Failure-carrying result types shared by the other modules. */
module Wrappers {

  datatype Option<+T> = None | Some(value: T)

  datatype Result<+R, +E> = Success(value: R) | Failure(error: E)

  /** A success/failure outcome that carries no value on success. */
  datatype Outcome<+E> = Pass | Fail(error: E)
}
