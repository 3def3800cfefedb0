/** Option type used for the operations of the source that can panic. */
module Wrappers {
  datatype Option<+T> = None | Some(value: T)
}
