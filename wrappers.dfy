/** Option and Result, the two failure-carrying datatypes the model uses for
    Rust's Option and for the panics of the source. */
module Wrappers {

  datatype Option<+T> = None | Some(value: T) {
    /** The value inside, or a default when there is none (Rust's unwrap_or). */
    function GetOr(default: T): T {
      match this
      case Some(v) => v
      case None => default
    }
  }

  datatype Result<+T, +E> = Ok(value: T) | Err(error: E)
}
