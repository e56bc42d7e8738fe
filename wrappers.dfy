/** The conventional Some/None datatype, standing for a JavaScript value that is either a
    string or `null` (or, for one field, absent). */
module Wrappers {

  datatype Option<+T> = None | Some(value: T) {

    /** The value, or `default` when there is none (JavaScript's `x || default` on a
        string-or-null, since `''` and `null` both fall back and `'' || ''` is `''`). */
    function GetOr(default: T): T {
      match this
      case Some(v) => v
      case None => default
    }
  }
}
