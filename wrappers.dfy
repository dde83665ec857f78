/** Option stands in for the nullable Go pointers of the result model. */
module Wrappers {

  datatype Option<+T> = None | Some(value: T)
}
