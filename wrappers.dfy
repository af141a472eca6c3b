/** The optional value used for "nothing found" and for a foreign call that throws. */
module Wrappers {
  datatype Option<+T> = None | Some(value: T)
}
