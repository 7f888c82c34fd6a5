/** The optional value used wherever the engine may or may not have a result. */
module Wrappers {

  datatype Option<+T> = None | Some(value: T)
}
