/** Option and Result, the two shapes in which the crate reports absence and failure. */
module Wrappers {

  datatype Option<+T> = None | Some(value: T)

  /** Failure-compatible, so that `:-` plays the part of the `?` operator. */
  datatype Result<+T, +E> = Success(value: T) | Failure(error: E) {

    predicate IsFailure() {
      Failure?
    }

    function PropagateFailure<U>(): Result<U, E>
      requires Failure?
    {
      Failure(error)
    }

    function Extract(): T
      requires Success?
    {
      value
    }

    /** Drops the error, as `Result::ok` does. */
    function ToOption(): Option<T> {
      match this
      case Success(v) => Some(v)
      case Failure(_) => None
    }

    /** The error alone, as `Result::err` gives it. */
    function ToError(): Option<E> {
      match this
      case Success(_) => None
      case Failure(e) => Some(e)
    }

    function UnwrapOr(fallback: T): T {
      match this
      case Success(v) => v
      case Failure(_) => fallback
    }
  }
}
