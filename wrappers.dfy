/** The optional value used for "defined or not" build facts. */
module Wrappers {

  datatype Option<+T> = None | Some(value: T)
}
