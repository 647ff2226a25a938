/** The optional value used by the parsers in this project. */
module Wrappers {

  datatype Option<+T> = None | Some(value: T)
}
