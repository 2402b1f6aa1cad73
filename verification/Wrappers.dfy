/** A value that may be missing: NULL pointers and failed calls. */
module Wrappers {
  datatype Option<T> = None | Some(value: T)
}
