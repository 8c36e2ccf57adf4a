/** The optional-value datatype the parser uses to report failure. */
module Wrappers {

  /** Either no value (`None`) or a value (`Some`). */
  datatype Option<+T> = None | Some(value: T) {

    /** The wrapped value, or `default` when there is none. */
    function GetOr(default: T): T {
      match this
      case Some(v) => v
      case None => default
    }
  }
}
