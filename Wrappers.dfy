/** The optional value the engine returns for a booking that may be refused. */
module Wrappers {
  datatype Option<T> = None | Some(value: T)
}
