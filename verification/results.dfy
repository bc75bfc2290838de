/** Failure-carrying return values, in the shape of Rust's `Option` and `Result`. */
module Results {

  /** An optional value; `GetOr` plays the part of Rust's `unwrap_or`. */
  datatype Option<+T> = None | Some(value: T) {

    /** The carried value, or `default` when there is none. */
    function GetOr(default: T): T {
      match this
      case Some(v) => v
      case None => default
    }
  }

  /** Either a value (`Ok`) or an error (`Err`). */
  datatype Result<+T, +E> = Ok(value: T) | Err(error: E)
}
