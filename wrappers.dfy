/** Optional values and results: Go's nil-able pointer fields and its (value, error) returns. */
module Wrappers {

  /** A pointer field that may be nil. */
  datatype Option<+T> = None | Some(value: T) {
    function GetOr(default: T): T {
      match this
      case Some(v) => v
      case None => default
    }
  }

  /** A (value, error) pair where exactly one side is meaningful. */
  datatype Result<+T, +E> = Ok(value: T) | Err(error: E)
}
