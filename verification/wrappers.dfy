/** The optional-value datatype used for nullable pointers and for calls that may fail. */
module Wrappers {

  /** `None` plays the part of a NULL pointer or of a failed open. */
  datatype Option<+T> = None | Some(value: T)
}
