/** Option and Result, for the optional parts of a page and the scraper's error path. */
module Wrappers {

  /** A value that may be absent: a missing attribute, element or file. */
  datatype Option<+T> = None | Some(value: T) {

    /** The value when present, otherwise the given default. */
    function GetOr(default: T): T {
      match this
      case Some(v) => v
      case None => default
    }
  }

  /** The outcome of an operation that can raise an exception. */
  datatype Result<+R, +E> = Success(value: R) | Failure(error: E)
}
