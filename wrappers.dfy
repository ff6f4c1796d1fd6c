/** The optional value shared by the modules of this model (JavaScript `null` is `None`). */
module Wrappers {
  datatype Option<T> = None | Some(value: T)
}
