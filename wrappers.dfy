/** Optional values and results, as used for nullable store answers and failing operations. */
module Wrappers {

  /** A value that may be absent: an unset query parameter, a `null` sum, a lookup that found nothing. */
  datatype Option<+T> = None | Some(value: T) {

    /** The value if present, otherwise `default`. */
    function GetOr(default: T): T {
      match this
      case Some(v) => v
      case None => default
    }
  }

  /** The outcome of an operation that can fail with a message. */
  datatype Result<+T> = Success(value: T) | Failure(error: string)
}
