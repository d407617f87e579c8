/** Optional values: the model's stand-in for a C pointer that may be NULL. */
module Wrappers {

  datatype Option<+T> = None | Some(value: T) {

    /** The value, or `default` when there is none. */
    function GetOr(default: T): T {
      match this
      case Some(v) => v
      case None => default
    }

    /** `f` applied to the value, if there is one. */
    function Map<U>(f: T -> U): Option<U> {
      match this
      case Some(v) => Some(f(v))
      case None => None
    }
  }
}
