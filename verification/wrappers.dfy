/** The Option datatype used for partial results throughout the model. */
module Wrappers {

  /** Either no value, or some value. */
  datatype Option<+T> = None | Some(value: T)
}
