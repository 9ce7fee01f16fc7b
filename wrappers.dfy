/** The Option value used in place of C#'s null. */
module Wrappers {

  datatype Option<+T> = None | Some(value: T)
}
