/** The optional value used for C#'s nullable values (`DateTime?`, `null` arguments). */
module Wrappers {

  datatype Option<+T> = None | Some(value: T)
}
