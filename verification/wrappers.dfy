/** Optional values and results, standing in for Python's `None` and for the
    exceptions the modelled code lets escape. */
module Wrappers {

  /** A value that may be absent (`None` in Python). */
  datatype Option<+T> = None | Some(value: T) {

    /** The value, or `default` when absent (Python's `d.get(k, default)`). */
    function GetOr(default: T): T {
      match this
      case Some(v) => v
      case None => default
    }
  }

  /** The outcome of a Python call that may raise. */
  datatype Result<+T, +E> = Ok(value: T) | Err(error: E)
}
