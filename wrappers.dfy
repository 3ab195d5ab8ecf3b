/** The optional value used for every field a caller may leave out. */
module Wrappers {

  datatype Option<+T> = None | Some(value: T)
}
