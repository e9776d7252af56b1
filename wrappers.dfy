/** Optional values: a field a feed entry or an HTML block may lack, a scan that may find nothing. */
module Wrappers {

  datatype Option<+T> = None | Some(value: T) {

    /** The value if there is one, else the given default (Python's `dict.get(key, default)`). */
    function GetOr(default: T): T {
      match this
      case Some(v) => v
      case None => default
    }
  }
}
