/** Failure-compatible wrappers shared by the model: `Option` stands for a
    JavaScript value that may be `null`/`undefined`, `Result` for a
    computation that may throw. */
module Wrappers {

  /** A value that may be absent (`null` or `undefined` in JavaScript). */
  datatype Option<+T> = None | Some(value: T) {

    /** The wrapped value, or `default` when absent: JavaScript's `x || default`
        for values whose only falsy form is absence. */
    function GetOr(default: T): T {
      match this
      case Some(v) => v
      case None => default
    }
  }

  /** A computation that either produced a value or raised an error. */
  datatype Result<+R, +E> = Success(value: R) | Failure(error: E) {

    predicate IsFailure() {
      Failure?
    }

    function PropagateFailure<U>(): Result<U, E>
      requires Failure?
    {
      Failure(error)
    }

    function Extract(): R
      requires Success?
    {
      value
    }
  }
}
