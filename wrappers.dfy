/** The absent-or-present value that Python expresses with `Optional[...]` and `None`. */
module Wrappers {
  datatype Option<+T> = None | Some(value: T)
}
