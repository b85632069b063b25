/** The optional value shared by the modules that model nullable references. */
module Wrappers {

  datatype Option<T> = None | Some(value: T)
}
