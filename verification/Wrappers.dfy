/** What a lookup or a computation that may fail returns. */
module Wrappers {

  datatype Option<+T> = None | Some(value: T)
}
