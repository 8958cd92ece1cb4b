/** The optional value used throughout the model for "may be absent" and "may fail". */
module Wrappers {
  datatype Option<+T> = None | Some(value: T)
}
