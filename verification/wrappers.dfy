/** The optional value shared by every module: an absent value, or one that is there. */
module Wrappers {

  datatype Option<+T> = None | Some(value: T)
}
