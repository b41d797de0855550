/** The absent-or-present value used where the C sources return NULL and the Java sources null. */
module Wrappers {
  datatype Option<+T> = None | Some(value: T)
}
