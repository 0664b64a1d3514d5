/** Failure-compatible wrappers: an optional value and a value-or-error. */
module Wrappers {

  /** An optional value; the model's stand-in for Python's `Optional[T]` / `None`. */
  datatype Option<+T> = None | Some(value: T)

  /** Either a value or an error; the model's stand-in for a raised `ValueError`. */
  datatype Result<+T, +E> = Success(value: T) | Failure(error: E) {

    predicate IsFailure() {
      Failure?
    }

    function PropagateFailure<U>(): Result<U, E>
      requires Failure?
    {
      Failure(error)
    }

    function Extract(): T
      requires Success?
    {
      value
    }
  }
}
