/** The Some/None datatype used where the catalog code distinguishes an absent
    value (`undefined`, `null`) from a present one. */
module Wrappers {

  datatype Option<+T> = None | Some(value: T) {

    /** Returns the value in Some, or `default` when None (JavaScript's `x || default`
        for values that are never falsy when present). */
    function GetOr(default: T): T
    {
      match this
      case Some(v) => v
      case None => default
    }
  }
}
