/** Failure-carrying values shared by the modules of this project. */
module Wrappers {

  /** An optional value: `None` stands for a Python `None` or a value that could not be produced. */
  datatype Option<+T> = None | Some(value: T)
}
