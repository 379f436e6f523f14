/** The optional value used for the constructor's optional seed and for
    unpacking results that may be missing. */
module Wrappers {

  datatype Option<+T> = None | Some(value: T)
}
