/** Option: a value that may be absent (a JavaScript `null`/`undefined`, a missing row). */
module Wrappers {
  datatype Option<+T> = None | Some(value: T) {
    function GetOr(default: T): T {
      match this
      case Some(v) => v
      case None => default
    }
  }
}
