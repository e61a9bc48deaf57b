/** The conventional optional-value datatype, used where a reader may fail. */
module Wrappers {

  datatype Option<+T> = None | Some(value: T)
}
