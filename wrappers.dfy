/** The optional value used throughout the model: a SQL NULL, a failed parse. */
module Wrappers {

  datatype Option<+T> = None | Some(value: T)
}
