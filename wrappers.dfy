/** Optional values: a C# nullable reference (`string?`) is `None` when null. */
module Wrappers {

  datatype Option<+T> = None | Some(value: T)
}
