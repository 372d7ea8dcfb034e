/** The Option type used for results that may be absent (a parse that fails, an export that is skipped). */
module Wrappers {

  datatype Option<+T> = None | Some(value: T)
}
