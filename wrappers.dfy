/** The Option datatype, standing for a value that may be `null`. */
module Wrappers {

  datatype Option<+T> = None | Some(value: T) {

    /** The value held, or `default` when there is none (JavaScript's
        `x || default` for an object-or-null `x`). */
    function GetOr(default: T): T {
      match this
      case Some(v) => v
      case None => default
    }
  }
}
