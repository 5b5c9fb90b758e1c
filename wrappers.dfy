/** Optional values and results with an error, as returned by the stream operations that can
    come back empty (findFirst) or fail (limit with a negative size, toMap on a duplicate key). */
module Wrappers {

  /** java.util.Optional: either empty or holding one value. */
  datatype Option<+T> = None | Some(value: T) {
    /** Optional.orElse */
    function GetOr(default: T): T {
      match this
      case Some(v) => v
      case None => default
    }
  }

  /** A value, or the exception the Java code would throw instead of returning one. */
  datatype Result<+T, +E> = Ok(value: T) | Err(error: E)
}
