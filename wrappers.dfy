/** The usual optional-value datatype, used for driver calls that may raise. */
module Wrappers {

  datatype Option<+T> = None | Some(value: T)
}
