/** A value that may be absent: JavaScript's `undefined`, a failed parse, a missing key. */
module Wrappers {
  datatype Option<+T> = None | Some(value: T) {
    function GetOr(default: T): T {
      match this
      case Some(v) => v
      case None => default
    }
  }
}
