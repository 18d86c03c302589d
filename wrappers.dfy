/** A nullable value: C#'s `T?` and a reference that may be `null`. */
module Wrappers {

  datatype Option<+T> = None | Some(value: T) {

    /** `value ?? fallback` */
    function GetOr(fallback: T): T
    {
      match this
      case Some(v) => v
      case None => fallback
    }
  }
}
