/** The optional value used wherever the system has "no value": a missing
    regular-expression match, a SQL NULL, an undefined average. */
module Wrappers {

  datatype Option<+T> = None | Some(value: T) {

    /** The carried value, or `default` when there is none. */
    function GetOr(default: T): T {
      match this
      case Some(v) => v
      case None => default
    }
  }
}
