/** Optional values and success-or-error results shared by every module. */
module Results {

  /** A value that may be missing: JavaScript's `null`/`undefined` become None. */
  datatype Option<+T> = None | Some(value: T) {
    function GetOr(default: T): T {
      match this
      case Some(v) => v
      case None => default
    }
  }

  /** The outcome of an operation that either succeeds with a value or fails. */
  datatype Result<+T, +E> = Ok(value: T) | Err(error: E)
}
