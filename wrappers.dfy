/** Option: the model's stand-in for a nullable pointer to a value. */
module Wrappers {
  datatype Option<+T> = None | Some(value: T)
}
