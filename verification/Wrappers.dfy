/** A value that may be missing: NULL strings, failed lookups. */
module Wrappers {
  datatype Option<+T> = None | Some(value: T)
}
