/** Small helper datatypes shared by every module. */
module Wrappers {
  /** A value that may be missing: a nil record, a nil func or an absent map entry in Go. */
  datatype Option<T> = None | Some(value: T)
}
