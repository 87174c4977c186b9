/** Option and Result datatypes shared by the other modules. */
module Wrappers {

  /** Rust's `Option<T>`. */
  datatype Option<T> = None | Some(value: T) {

    /** The wrapped value, or `default` when there is none. */
    function GetOr(default: T): T {
      match this
      case Some(v) => v
      case None => default
    }
  }

  /** A result whose error case stands for a panic, carrying the panic message. */
  datatype Result<T> = Ok(value: T) | Err(msg: string)
}
