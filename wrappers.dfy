/** Small value wrappers shared by the command catalog and the driver model. */
module Wrappers {

  /** A value that may be absent. */
  datatype Option<T> = None | Some(value: T)
}
