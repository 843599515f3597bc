/** The optional value used for "no record" and "no reading". */
module Wrappers {

  datatype Option<+T> = None | Some(value: T)
}
