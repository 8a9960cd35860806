/** Optional values: an absent storage key, a `find` that matched nothing, a number
    that did not parse, a calculation that reported an error instead of a result. */
module Wrappers {

  datatype Option<+T> = None | Some(value: T) {

    /** The wrapped value, or `default` when there is none. */
    function GetOr(default: T): T {
      match this
      case Some(v) => v
      case None => default
    }
  }
}
