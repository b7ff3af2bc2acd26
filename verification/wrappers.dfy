/** The failure-carrying datatype shared by the other modules. */
module Wrappers {

  /** A value that may be absent: a missing digit, a failed decode. */
  datatype Option<+T> = None | Some(value: T)
}
