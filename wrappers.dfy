/** A value that Java code may leave `null`. */
module Wrappers {

  datatype Nullable<+T> = Null | NonNull(value: T) {

    /** The value, or `default` when it is null. */
    function GetOr(default: T): T {
      match this
      case NonNull(v) => v
      case Null => default
    }
  }
}
