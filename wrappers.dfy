/** The optional value used where the component reads a missing key as `undefined`. */
module Wrappers {
  datatype Option<+T> = None | Some(value: T)
}
