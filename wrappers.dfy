/** The optional value used wherever the optimizer can fail or give up. */
module Wrappers {

  datatype Option<+T> = None | Some(value: T)
}
