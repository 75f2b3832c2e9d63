/** Values that may be absent: the C code's NULL returns. */
module Wrappers {
  datatype Option<+T> = None | Some(value: T)
}
