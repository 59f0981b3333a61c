/** Option: the result of a conversion that can fail, where the Python code raises ValueError. */
module Wrappers {
  datatype Option<+T> = None | Some(value: T)
}
