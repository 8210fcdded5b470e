/** The optional-value type used wherever the source tests `Number.isFinite`
    or meets `null`/`undefined`: a value that is absent or not a finite
    number is `None`. */
module Wrappers {

  datatype Option<+T> = None | Some(value: T) {

    /** The wrapped value, or `default` when there is none. */
    function GetOr(default: T): T {
      match this
      case Some(v) => v
      case None => default
    }
  }
}
