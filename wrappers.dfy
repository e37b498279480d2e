/** Option: the model's stand-in for a C# nullable reference. */
module Wrappers {

  datatype Option<+T> = None | Some(value: T)
}
