/** Failure-compatible wrappers shared by the whole model. */
module Wrappers {

  /** A value that may be absent (Go's nil pointer / missing map entry). */
  datatype Option<+T> = None | Some(value: T)

  /** Either a value or an error (Go's `(T, error)` pair when the value is
      meaningless on error). */
  datatype Result<+R, +E> = Success(value: R) | Failure(error: E) {
    predicate IsFailure() {
      Failure?
    }

    function PropagateFailure<U>(): Result<U, E>
      requires Failure?
    {
      Failure(error)
    }

    function Extract(): R
      requires Success?
    {
      value
    }
  }
}
