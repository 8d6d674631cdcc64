/** The usual optional-value datatype; `None` stands for SQL NULL and for "nothing". */
module Wrappers {
  datatype Option<+T> = None | Some(value: T)
}
