/** The optional-value datatype used throughout the model, standing in for
    JavaScript's `null` / `undefined` and for "no match". */
module Wrappers {

  datatype Option<+T> = None | Some(value: T)
}
