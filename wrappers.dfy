/** The Option datatype used for absent values throughout the model. */
module Wrappers {

  datatype Option<+T> = None | Some(value: T) {

    /** The value when present, else the default: JavaScript's `x !== undefined ? x : d`, which keeps a present falsy value (unlike `x || d`). */
    function GetOr(default: T): T {
      match this
      case Some(v) => v
      case None => default
    }
  }
}
