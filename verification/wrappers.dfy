/** The optional value used wherever the scripts produce NaN or None. */
module Wrappers {

  datatype Option<+T> = None | Some(value: T)
}
