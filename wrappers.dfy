/** The optional value used wherever the source works with `undefined`, `null`
    or a thrown exception: `None` is "absent" (or "threw"), `Some` carries a value. */
module Wrappers {

  datatype Option<+T> = None | Some(value: T) {

    /** `x ?? fallback` in the source: the carried value, or the fallback when absent. */
    function GetOr(fallback: T): T {
      match this
      case Some(v) => v
      case None => fallback
    }
  }
}
