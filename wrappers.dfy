/** The optional value used for "no regex match" and "no file for this label". */
module Wrappers {

  datatype Option<+T> = None | Some(value: T)
}
