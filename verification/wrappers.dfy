/** The optional value used where a JavaScript search reports "not found". */
module Wrappers {

  datatype Option<+T> = None | Some(value: T)
}
