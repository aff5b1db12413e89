/** A pointer that may be null, a file that may be missing. */
module Wrappers {
  datatype Option<+T> = None | Some(value: T)
}
