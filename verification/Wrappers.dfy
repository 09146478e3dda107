// Small shared datatypes.

module Wrappers {
  /** A value that may be missing: Go's nil pointers and failed look-ups. */
  datatype Option<+T> = None | Some(value: T)
}
