/** The optional value used wherever the modelled code can fail or find nothing. */
module Wrappers {

  datatype Option<+T> = None | Some(value: T)
}
