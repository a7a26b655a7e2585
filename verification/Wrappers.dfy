/** Values that may be absent, such as null pointers. */
module Wrappers {
  datatype Option<T> = None | Some(value: T)
}
