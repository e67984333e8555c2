/** Bytes, and values that may be missing. */
module Wrappers {

  type byte = b: nat | b < 256

  datatype Option<+T> = None | Some(value: T)
}
