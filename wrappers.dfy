/** Optional values: the model's stand-in for a nullable column or a Python `None`. */
module Wrappers {

  datatype Option<+T> = None | Some(value: T) {

    /** The value if present, otherwise the given default (Python's `x or default` for values that are always truthy). */
    function GetOr(default: T): T {
      match this
      case Some(v) => v
      case None => default
    }
  }
}
