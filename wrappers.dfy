/** The optional value used where the source passes a possibly-NULL pointer
    or where an as-written model reads outside a buffer. */
module Wrappers {

  datatype Option<+T> = None | Some(value: T)
}
