/** The optional value used for a calendar fetch that may fail. */
module Wrappers {

  datatype Option<+T> = None | Some(value: T)
}
