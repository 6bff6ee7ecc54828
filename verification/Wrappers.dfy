/** A value that may be missing: the null pointers the source returns. */
module Wrappers {
  datatype Option<+T> = None | Some(value: T)
}
