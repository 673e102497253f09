/** The optional value used for Python's "value or nothing" results
    (a parse that raised ValueError, a lookup that raised). */
module Wrappers {

  datatype Option<+T> = None | Some(value: T) {

    /** The carried value, or `default` when there is none. */
    function GetOr(default: T): T {
      match this
      case Some(v) => v
      case None => default
    }
  }
}
