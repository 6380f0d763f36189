/** The result of an operation that may come back with nothing. */
module Wrappers {
  datatype Option<+T> = None | Some(value: T)
}
