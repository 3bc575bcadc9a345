/** Small result types shared by every module of the model. */
module Wrappers {

  /** A value that may be missing (a JSON key that is not there, a parse that failed). */
  datatype Option<+T> = None | Some(value: T) {
    function GetOr(default: T): T {
      match this
      case Some(v) => v
      case None => default
    }
  }

  /** A value or the error a Python function raises in its place. */
  datatype Result<+T, +E> = Ok(value: T) | Err(error: E)

  /** A Python call that either returns a value or raises an exception that
      only an enclosing `except Exception` handler catches. */
  datatype Outcome<+T> = Returned(value: T) | Raised
}
