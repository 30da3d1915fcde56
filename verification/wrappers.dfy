/** The optional value used wherever the scripts use `None` or `dict.get`. */
module Wrappers {

  datatype Option<+T> = None | Some(value: T)
}
