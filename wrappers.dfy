/** The null-or-value results of the C# source (`Client?`) as an Option. */
module Wrappers {
  datatype Option<+T> = None | Some(value: T)
}
