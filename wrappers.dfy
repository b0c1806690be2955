/** The optional value used where the analysis leaves a missing entry (pandas NaN). */
module Wrappers {
  datatype Option<+T> = None | Some(value: T)
}
