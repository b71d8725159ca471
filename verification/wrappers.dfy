/**
 * The shapes a Python call's answer takes in this model: a value or `None`,
 * a value or a raised exception, and a bare return or a raised exception.
 */
module Wrappers {

  /** `None`, or a present value. */
  datatype Option<+T> = None | Some(value: T)

  /**
   * What a Python call that can raise produces. The three members below let
   * `:-` stop at the first exception, as an uncaught `raise` would.
   */
  datatype Result<+R, +E> = Success(value: R) | Failure(error: E) {
    predicate IsFailure() { Failure? }

    function PropagateFailure<U>(): Result<U, E>
      requires Failure?
    {
      Failure(error)
    }

    function Extract(): R
      requires Success?
    {
      value
    }
  }

  /** A call whose normal return carries no value: it returns, or it raises `error`. */
  datatype Outcome<+E> = Pass | Fail(error: E)
}
