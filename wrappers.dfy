/** The optional value that Rust's `Option` gives: `re.captures(line)?` and
    the result of `check` are both of this type. */
module Wrappers {

  datatype Option<+T> = None | Some(value: T) {

    /** `unwrap_or_else` with a constant fallback. */
    function GetOr(default: T): (r: T)
      ensures Some? ==> r == value
      ensures None? ==> r == default
    {
      match this
      case Some(v) => v
      case None => default
    }
  }
}
