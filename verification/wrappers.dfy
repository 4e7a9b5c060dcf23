/** An optional value, shared by the modules of this project. */
module Wrappers {

  /** An optional value: `None` stands for an absent object. */
  datatype Option<+T> = None | Some(value: T)
}
