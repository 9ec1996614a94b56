/** Optional values: `None` stands for the C# `null` the program returns or compares against. */
module Wrappers {

  datatype Option<+T> = None | Some(value: T)
}
