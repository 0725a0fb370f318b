/** The optional value that the source writes as `null` or a missing match. */
module Wrappers {
  datatype Option<+T> = None | Some(value: T)
}
