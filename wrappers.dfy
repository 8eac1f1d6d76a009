/** Small failure-compatible wrapper used across the model. */
module Wrappers {

  /** A value that may be absent (JavaScript's `undefined`/NaN/missing file cases). */
  datatype Option<+T> = None | Some(value: T) {

    /** The wrapped value, or `default` when absent. */
    function GetOr(default: T): T {
      match this
      case Some(v) => v
      case None => default
    }
  }
}
