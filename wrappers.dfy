/** The optional value used where the source has a null pointer or a call
    that may not happen. */
module Wrappers {
  datatype Option<+T> = None | Some(value: T)
}
