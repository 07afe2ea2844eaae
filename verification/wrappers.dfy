/** The optional value used where the source raises or returns None. */
module Wrappers {
  datatype Option<+T> = None | Some(value: T)
}
