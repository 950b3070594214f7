/** Optional values, used for keys that may be absent and for steps that may raise. */
module Wrappers {

  /** A value that may be missing: `None` stands for an absent key or a raised exception. */
  datatype Option<T> = None | Some(value: T) {

    /** The wrapped value, or `default` when there is none. */
    function GetOr(default: T): T {
      match this
      case Some(v) => v
      case None => default
    }
  }
}
