/** A value that may be missing: a JSON field that is absent, or a lookup with no match. */
module Wrappers {
  datatype Option<+T> = None | Some(value: T)
}
