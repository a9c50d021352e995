/** The optional-value datatype used throughout the model for JavaScript's
    `null`/`undefined` results and for handlers that return early. */
module Wrappers {

  datatype Option<+T> = None | Some(value: T) {

    /** The wrapped value, or `default` when there is none. */
    function GetOr(default: T): T {
      match this
      case Some(v) => v
      case None => default
    }
  }
}
