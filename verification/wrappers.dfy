/** A value that may be missing: a queue receive that finds the queue
    empty, or a configuration read that fails. */
module Wrappers {

  datatype Option<T> = None | Some(value: T) {

    /** The held value, falling back to `fallback` when nothing is held. */
    function GetOr(fallback: T): T {
      if Some? then value else fallback
    }
  }
}
