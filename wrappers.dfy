/** The optional-value datatype used for absent request fields and failed parses. */
module Wrappers {

  datatype Option<+T> = None | Some(value: T)
}
