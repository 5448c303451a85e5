/** The optional value used by the search functions of the model. */
module Wrappers {

  datatype Option<+T> = None | Some(value: T)
}
