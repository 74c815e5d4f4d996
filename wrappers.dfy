/** The optional value used for NULL-able pointers and for lookups that may fail. */
module Wrappers {
  datatype Option<+T> = None | Some(value: T)
}
