/** An optional value: None stands for a missing result. */
module Wrappers {
  datatype Option<T> = None | Some(value: T)
}
