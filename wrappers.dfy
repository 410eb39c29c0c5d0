/** Option type for the foreign results that may come back null. */
module Wrappers {
  datatype Option<+T> = None | Some(value: T)
}
