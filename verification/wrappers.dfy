/** Option type standing in for the source's null pointers and empty std::function values. */
module Wrappers {

  datatype Option<+T> = None | Some(value: T)
}
