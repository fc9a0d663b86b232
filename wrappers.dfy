/** The optional-value datatype used by the model for "no match" and "parse failed". */
module Wrappers {

  datatype Option<+T> = None | Some(value: T) {

    /** The encapsulated value, or `default` when there is none. */
    function GetOr(default: T): T {
      match this
      case Some(v) => v
      case None => default
    }
  }
}
