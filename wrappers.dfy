/** The nullable values of the C# program (`long?`, `string?`, `Match?`) become Option. */
module Wrappers {

  datatype Option<+T> = None | Some(value: T)

}
