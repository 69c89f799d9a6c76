/** The optional value used for nullable cells and partial operations. */
module Wrappers {
  datatype Option<+T> = None | Some(value: T)
}
