/** Option and Result: the error paths of the Python code (exceptions and
    failed assertions) become Failure values instead of preconditions. */
module Wrappers {

  datatype Option<+T> = None | Some(value: T) {
    function ToResult<E>(e: E): Result<T, E>
    {
      match this
      case Some(v) => Success(v)
      case None => Failure(e)
    }
  }

  datatype Result<+T, +E> = Success(value: T) | Failure(error: E) {
    predicate IsFailure() { Failure? }

    function PropagateFailure<U>(): Result<U, E>
      requires Failure?
    {
      Failure(error)
    }

    function Extract(): T
      requires Success?
    {
      value
    }
  }
}
