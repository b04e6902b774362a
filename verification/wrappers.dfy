/** The optional value used for request fields that may be absent and for
    computations that may fail. */
module Wrappers {

  datatype Option<+T> = None | Some(value: T)
}
