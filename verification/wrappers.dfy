/** Failure-carrying values shared by the other modules. */
module Wrappers {

  /** A value that may be absent: Java's nullable references. */
  datatype Option<+T> = None | Some(value: T)
}
