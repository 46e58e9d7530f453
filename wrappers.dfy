/** Option and Result: the missing cell and the raised exception, as values. */
module Wrappers {

  /** A value that may be absent (a pandas null, a Python None). */
  datatype Option<+T> = None | Some(value: T)

  /**
   * The outcome of an operation that either returns a value or raises an
   * error. The three members let `:-` propagate the error, as an exception
   * propagates out of a Python call.
   */
  datatype Result<+T, +E> = Success(value: T) | Failure(error: E)
  {
    predicate IsFailure() { Failure? }

    function PropagateFailure<U>(): Result<U, E>
      requires Failure?
    {
      Failure(error)
    }

    function Extract(): T
      requires Success?
    {
      value
    }
  }
}
