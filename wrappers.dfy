/** Option and Outcome, the two shapes of "maybe" the backend uses:
    Rust's `Option<T>` and `Result<(), String>`. */
module Wrappers {

  datatype Option<+T> = None | Some(value: T) {
    function GetOr(default: T): T {
      match this
      case Some(v) => v
      case None => default
    }
  }

  /** `Result<(), String>`: success, or an error message. */
  datatype Outcome = Ok | Err(msg: string)

  /** `Result<T, String>`. */
  datatype Result<+T> = Success(value: T) | Failure(error: string)
}
