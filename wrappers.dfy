/** The optional value that every scanner of the model returns: a regular
    expression that may or may not match, a lookup that may or may not find. */
module Wrappers {

  datatype Option<+T> = None | Some(value: T)
}
