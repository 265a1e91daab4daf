/** Option and Result values, standing in for Python's missing dictionary keys and raised exceptions. */
module Wrappers {

  datatype Option<+T> = None | Some(value: T) {
    /** The wrapped value, or `default` when there is none (Python's `dict.get(key, default)`). */
    function GetOr(default: T): T {
      match this
      case Some(v) => v
      case None => default
    }
  }

  /** `Ok` is a normal return; `Err` is an exception propagating out of the call. */
  datatype Result<+T, +E> = Ok(value: T) | Err(error: E)
}
