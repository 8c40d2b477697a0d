/** Small helper datatypes shared by the model. */
module Wrappers {

  /** The conventional Some/None datatype: an absent value instead of a failed call. */
  datatype Option<+T> = None | Some(value: T)
}
