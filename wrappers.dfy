/** Optional values and fallible results, as used by the rest of the model. */
module Wrappers {

  datatype Option<+T> = None | Some(value: T) {
    /** `unwrap_or` of an optional value. */
    function GetOr(default: T): T {
      match this
      case Some(v) => v
      case None => default
    }
  }

  datatype Result<+T, +E> = Ok(value: T) | Err(error: E)
}
