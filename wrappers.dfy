/** The optional value used where Python returns a value or raises. */
module Wrappers {
  datatype Option<+T> = None | Some(value: T)
}
