/** Optional values and the error channel shared by the modelled functions. */
module Wrappers {

  /** A value that may be absent: a missing dictionary key, or Python's None. */
  datatype Option<+T> = None | Some(value: T) {
    /** The value, or `default` when absent (Python's `d.get(key, default)`). */
    function GetOr(default: T): T {
      match this
      case Some(v) => v
      case None => default
    }
  }

  /** The exception a function raises: in the modelled code this is always a `ValueError`. */
  datatype ValueError = ValueError(message: string)

  /** Either a returned value or a raised `ValueError`. */
  datatype Result<+T> = Ok(value: T) | Err(error: ValueError)
}
