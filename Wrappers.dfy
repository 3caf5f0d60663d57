/** Failure-compatible wrappers: Ruby's `nil` for an absent value, and the
    outcome of a step that may raise. */
module Wrappers {

  /** An optional value; `None` stands for Ruby's `nil`. */
  datatype Option<+T> = None | Some(value: T) {
    function GetOr(default: T): T {
      match this
      case Some(v) => v
      case None => default
    }
  }

  /** Either a value or the error that was raised instead. */
  datatype Result<+R, +E> = Success(value: R) | Failure(error: E)
}
