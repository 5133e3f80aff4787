/** The usual optional value, for the builtins that may fail. */
module Wrappers {
  datatype Option<T> = None | Some(value: T)
}
