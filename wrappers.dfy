/** Option, used for the C# values that may be null. */
module Wrappers {

  datatype Option<+T> = None | Some(value: T)
}
