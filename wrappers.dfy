/** The optional value used wherever the C# code holds a possibly-null reference. */
module Wrappers {

  datatype Option<+T> = None | Some(value: T)
}
