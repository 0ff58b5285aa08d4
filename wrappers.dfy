/** The Option datatype used for the Python operations that raise. */
module Wrappers {
  datatype Option<+T> = None | Some(value: T)
}
