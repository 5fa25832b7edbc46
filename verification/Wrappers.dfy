// The result of a lookup or an operation that can fail.
module Wrappers {
  datatype Option<+T> = None | Some(value: T)
}
