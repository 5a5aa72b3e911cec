/** The optional result used wherever the program can fail to produce a value. */
module Wrappers {

  datatype Option<+T> = None | Some(value: T)
}
