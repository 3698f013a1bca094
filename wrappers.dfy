/** The optional value used for every nullable column of the index. */
module Wrappers {

  /** `None` stands for SQL NULL (Python `None`). */
  datatype Option<+T> = None | Some(value: T)
}
