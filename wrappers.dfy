/** Failure-compatible result type shared by the other modules. */
module Wrappers {

  /** A value, or the absence of one (a lookup that failed). */
  datatype Option<+T> = None | Some(value: T)
}
