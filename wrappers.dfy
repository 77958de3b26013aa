/** An optional value: the model of a Python argument whose default is `None`. */
module Wrappers {
  datatype Option<+T> = None | Some(value: T)
}
