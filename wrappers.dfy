/** The optional value used throughout the model: a missing slot, a missing
    pulse, a series that is not drawn. */
module Wrappers {

  datatype Option<+T> = None | Some(value: T)
}
