/** The optional value used where the component returns null. */
module Wrappers {
  datatype Option<+T> = None | Some(value: T)
}
