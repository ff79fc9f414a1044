/** The optional value used for answers that may be rejected. */
module Wrappers {

  datatype Option<+T> = None | Some(value: T)
}
