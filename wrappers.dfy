/** The optional value used where the views either produce something or not. */
module Wrappers {

  datatype Option<T> = None | Some(value: T)
}
