/** The result of a lookup that may come back empty-handed (a null pointer in C). */
module Wrappers {
  datatype Option<+T> = None | Some(value: T)
}
