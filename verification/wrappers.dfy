/** The conventional optional value: a message's media attachment may be absent. */
module Wrappers {
  datatype Option<+T> = None | Some(value: T)
}
