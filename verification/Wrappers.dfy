/** A result or none. */
module Wrappers {

  datatype Option<+T> = None | Some(value: T)
}
