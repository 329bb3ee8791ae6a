/** The `Option` type shared by the modules. */
module Wrappers {

  /** `None` stands for a value the source treats specially: a non-string
      argument, an absent optional parameter, or an exception raised. */
  datatype Option<+T> = None | Some(value: T)
}
