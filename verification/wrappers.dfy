/** The optional value used where the sources return a null pointer or None. */
module Wrappers {

  datatype Option<T> = None | Some(value: T)
}
