/** Optional values and success/failure results shared by the Brewlet model. */
module Wrappers {

  /** A value that may be absent; Swift's `T?`. */
  datatype Option<+T> = None | Some(value: T) {

    /** The value if present, otherwise `default`; Swift's `?? default`. */
    function GetOr(default: T): T {
      match this
      case Some(v) => v
      case None => default
    }
  }

  /** The outcome of an operation that can throw. */
  datatype Result<+R, +E> = Success(value: R) | Failure(error: E)
}
