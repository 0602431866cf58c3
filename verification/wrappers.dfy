/** The optional-value datatype used for nullable dataframe cells. */
module Wrappers {

  /** A nullable value: `None` is a missing field or a null cell. */
  datatype Option<+T> = None | Some(value: T) {

    /** The value, or `default` for a null. */
    function GetOr(default: T): T {
      match this
      case Some(v) => v
      case None => default
    }
  }
}
