/** Helper types shared by the model. */
module Wrappers {

  /** An optional value: a missing index or a NULL column. */
  datatype Option<+T> = None | Some(value: T)
}
