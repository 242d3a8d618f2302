/** Optional values and the outcome of a call that may raise. */
module Wrappers {

  datatype Option<T> = None | Some(value: T) {
    /** `d.get(key, default)`: the value when there is one, else `default`. */
    function GetOr(default: T): T {
      match this
      case Some(v) => v
      case None => default
    }
  }

  /** What a Python call produces: a value, or an exception that propagates to the caller. */
  datatype Outcome<T> = Raised | Returned(value: T)
}
