/** The Some/None datatype standing in for a C# reference that may be null,
    or for a library call that may throw. */
module Wrappers {

  datatype Option<+T> = None | Some(value: T)
}
