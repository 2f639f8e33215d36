/** The optional value used for replies that may be absent. */
module Wrappers {
  datatype Option<+T> = None | Some(value: T)
}
