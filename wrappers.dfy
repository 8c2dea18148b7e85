/** The optional values of the site's code: `undefined`, `null` and a missing
    cookie, header or prop are `None`. */
module Wrappers {

  datatype Option<+T> = None | Some(value: T) {

    /** `x ?? d` */
    function GetOr(default: T): T {
      match this
      case Some(v) => v
      case None => default
    }
  }
}
