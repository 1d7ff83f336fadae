/** Failure-carrying values used across the model: a JavaScript value that may be
    `undefined`, and the outcome of an `await` that may reject. */
module Wrappers {

  datatype Option<+T> = None | Some(value: T) {
    /** The value, or `default` when absent (JavaScript's `x || default` for a value that is never falsy). */
    function GetOr(default: T): T {
      match this
      case Some(v) => v
      case None => default
    }
  }

  /** Completion of an async handler: it returned, or its promise rejected with a message. */
  datatype Outcome<+E> = Pass | Fail(error: E)
}
