/** Option and Result: Ruby's nil and raised errors made explicit. */
module Wrappers {

  /** A value that may be absent (Ruby nil). */
  datatype Option<+T> = None | Some(value: T) {

    /** `x || default`: the value when present, otherwise the default. */
    function GetOr(default: T): T {
      match this
      case Some(v) => v
      case None => default
    }
  }

  /** A computation that either succeeds or fails with an error. */
  datatype Result<+T, +E> = Ok(value: T) | Err(error: E)
}
