/** The optional value used for parsed form inputs, selections and `prev` pointers. */
module Wrappers {

  datatype Option<+T> = None | Some(value: T)
}
