/** The optional value used where the sources return NULL, -1 or a failure flag. */
module Wrappers {
  datatype Option<+T> = None | Some(value: T)
}
