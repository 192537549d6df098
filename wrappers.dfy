/** An optional value: the model's reading of a nullable database column. */
module Wrappers {

  datatype Option<+T> = None | Some(value: T)
}
