/** The optional value used where the scripts either produce a value or
    take an error path instead. */
module Wrappers {

  datatype Option<+T> = None | Some(value: T)
}
