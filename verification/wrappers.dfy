/** The optional value used wherever the dock returns `Option<T>` or treats a
    missing key, a failed decode or an unset variable as "absent", and the
    outcome of an operation that can fail (`Result<T, E>`). */
module Wrappers {

  datatype Option<+T> = None | Some(value: T) {

    /** The value, or `default` when absent (Rust's `unwrap_or`). */
    function GetOr(default: T): T {
      match this
      case Some(v) => v
      case None => default
    }
  }

  datatype Result<+T, +E> = Ok(value: T) | Err(error: E)
}
