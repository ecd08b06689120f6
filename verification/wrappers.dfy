/** The optional value that stands in for JavaScript's `null` throughout the model. */
module Wrappers {

  /** `None` plays the role of `null`: an empty board cell or an absent selection. */
  datatype Option<+T> = None | Some(value: T)
}
