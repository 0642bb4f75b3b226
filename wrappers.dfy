/** A value that may be absent: a DOM property that is `null` or `undefined`,
    or a query-string parameter that is missing. */
module Wrappers {

  datatype Option<+T> = None | Some(value: T) {

    /** The value, or `default` when absent. */
    function GetOr(default: T): T {
      match this
      case Some(v) => v
      case None => default
    }
  }
}
