/** The optional value used for PHP's nullable strings (`null` or a string). */
module Wrappers {
  datatype Option<+T> = None | Some(value: T) {
    /** The contained value, or `default` when there is none. */
    function GetOr(default: T): T {
      match this
      case Some(v) => v
      case None => default
    }
  }
}
