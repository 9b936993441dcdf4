/** The failure-carrying result used where the solvers report "not found". */
module Wrappers {

  datatype Option<+T> = None | Some(value: T)
}
