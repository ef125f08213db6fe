/** The Option datatype used for values that Java represents as a possibly-null reference. */
module Wrappers {
  datatype Option<+T> = None | Some(value: T)
}
