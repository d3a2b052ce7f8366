/** Failure-free optional values, used wherever the source returns None or NULL. */
module Wrappers {
  datatype Option<+T> = None | Some(value: T)
}
