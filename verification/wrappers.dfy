/** Small value wrappers shared by the schema model and the differ. */
module Wrappers {

  /** Rust's `Option<T>`. */
  datatype Option<+T> = None | Some(value: T)

  /** The `Pair<T>` of the migration connector: the same thing before and after. */
  datatype Pair<+T> = Pair(previous: T, next: T)
}
