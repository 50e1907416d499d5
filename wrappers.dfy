/** The optional value used for a node's parent link (null for the root). */
module Wrappers {
  datatype Option<+T> = None | Some(value: T)
}
