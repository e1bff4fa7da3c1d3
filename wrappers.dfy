/** Failure-carrying values used for the backend's `Option` and `Result<_, String>` returns. */
module Wrappers {

  datatype Option<+T> = None | Some(value: T) {
    /** `Option::unwrap_or`. */
    function GetOr(default: T): T {
      match this
      case Some(v) => v
      case None => default
    }
  }

  /** `Result<T, String>`: a value or an error message. */
  datatype Result<+T> = Success(value: T) | Failure(error: string)

  /** `Result<(), String>`: no value, or an error message. */
  datatype Outcome = Pass | Fail(error: string)
}
