/** The result of a lookup, and the C NULL pointer. */
module Wrappers {
  datatype Option<+T> = None | Some(value: T)
}
