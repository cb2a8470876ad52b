/** The optional-value datatype shared by the models. */
module Wrappers {

  /** `Some(v)` for a present value, `None` for JavaScript's `undefined`. */
  datatype Option<+T> = None | Some(value: T) {

    /** The value if one is present, `default` otherwise. */
    function GetOr(default: T): T {
      match this
      case Some(v) => v
      case None => default
    }
  }
}
