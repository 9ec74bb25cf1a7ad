/** The optional value used wherever the source may produce `None` or raise. */
module Wrappers {
  datatype Option<+T> = None | Some(value: T)
}
