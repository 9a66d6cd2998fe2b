/** A value that may be missing: a null pointer in the original. */
module Wrappers {
  datatype Option<+T> = None | Some(value: T)
}
