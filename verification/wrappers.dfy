/** The optional-value datatype for the fields that may be `None`. */
module Wrappers {

  datatype Option<+T> = None | Some(value: T)
}
