/** Small helper datatypes shared by the model. */
module Wrappers {

  /** A value that may be absent: Python's `None` versus a reference. */
  datatype Option<T> = None | Some(value: T)
}
