/** The optional value used wherever the source may return null. */
module Wrappers {
  datatype Option<+T> = None | Some(value: T)
}
