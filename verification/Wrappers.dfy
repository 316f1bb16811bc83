/** The optional value used by the state machines. */
module Wrappers {
  datatype Option<+T> = None | Some(value: T)
}
