/** Failure-carrying datatypes shared by every module of the model. */
module Wrappers {

  /** A value that may be absent: Python's None, Rust's Option, a missing JSON key. */
  datatype Option<T> = None | Some(value: T) {

    /** The carried value, or `default` when absent. */
    function GetOr(default: T): T {
      match this
      case Some(v) => v
      case None => default
    }
  }

  /** The outcome of a Rust function returning `Result<T, E>`. */
  datatype Result<T, E> = Ok(value: T) | Err(error: E)
}
