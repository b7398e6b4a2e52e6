/** The optional value used wherever the source yields `null` or throws. */
module Wrappers {
  datatype Option<+T> = None | Some(value: T)
}
