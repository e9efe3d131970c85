/** Failure-compatible wrappers used throughout the model. */
module Wrappers {

  /** A value that may be missing: a table cell that pandas reads as NaN is `None`. */
  datatype Option<+T> = None | Some(value: T)

  /** The outcome of a step of the script that may raise an exception. */
  datatype Result<+R, +E> = Success(value: R) | Failure(error: E) {

    predicate IsFailure() {
      Failure?
    }

    function PropagateFailure<U>(): Result<U, E>
      requires Failure?
    {
      Failure(error)
    }

    function Extract(): R
      requires Success?
    {
      value
    }
  }
}
