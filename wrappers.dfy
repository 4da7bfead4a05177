/** The optional values of the game state: a direction that has not been chosen yet is None. */
module Wrappers {

  datatype Option<+T> = None | Some(value: T)
}
