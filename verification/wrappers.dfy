/** Kotlin's nullable values (`T?`) modelled as an explicit option. */
module Wrappers {

  datatype Option<+T> = None | Some(value: T)
}
