/** Failure-carrying wrappers shared by the model: an optional value (Go's nil) and
    a success-or-error result (Go's `error` return). */
module Wrappers {

  /** An optional value; `None` stands for Go's `nil`. */
  datatype Option<+T> = None | Some(value: T) {

    /** The wrapped value, or `default` when there is none. */
    function GetOr(default: T): (r: T)
      ensures Some? ==> r == value
      ensures None? ==> r == default
    {
      match this
      case Some(v) => v
      case None => default
    }
  }

  /** The outcome of an operation that returns a value or an error. */
  datatype Result<+R, +E> = Success(value: R) | Failure(error: E)
}
