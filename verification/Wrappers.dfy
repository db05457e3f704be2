/** The optional value that stands for a nullable pointer or reference. */
module Wrappers {
  datatype Option<+T> = None | Some(value: T)
}
