/** The optional value used throughout: a nullable pointer, or a result that may be absent. */
module Wrappers {
  datatype Option<+T> = None | Some(value: T)
}
