/** Wrappers shared by the model: the optional fields of the
    storage service's responses, and the success-or-error outcome of a run. */
module Wrappers {

  datatype Option<+T> = None | Some(value: T) {

    /** The value in `Some`, or `default` when absent (Rust's `unwrap_or`). */
    function GetOr(default: T): T {
      match this
      case Some(v) => v
      case None => default
    }
  }

  datatype Result<+R, +E> = Success(value: R) | Failure(error: E)
}
