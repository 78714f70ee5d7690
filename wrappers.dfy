/** Optional values and results with an error, as the rest of the model uses them. */
module Wrappers {

  /** A value that may be missing (JavaScript's `undefined` / `null`). */
  datatype Option<+T> = None | Some(value: T) {

    /** The value, or `default` when missing: JavaScript's `x || default` on a truthy `x`. */
    function GetOr(default: T): T {
      match this
      case Some(v) => v
      case None => default
    }
  }

  /** The outcome of an operation that can fail with an error of type `E`. */
  datatype Result<+T, +E> = Ok(value: T) | Err(error: E)
}
