/** The optional values the client reads out of loosely structured service responses. */
module Wrappers {

  /** A dictionary entry that may be absent (`dict.get` returning `None`). */
  datatype Option<+T> = None | Some(value: T) {

    /** `d.get(key, default)`: the value if present, the default otherwise. */
    function GetOr(default: T): T {
      match this
      case Some(v) => v
      case None => default
    }
  }
}
