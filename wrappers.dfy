/** The optional value used for the nullable handles and lookups of the model. */
module Wrappers {

  datatype Option<+T> = None | Some(value: T)
}
