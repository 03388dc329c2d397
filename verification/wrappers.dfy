/** Option type used for Go's nilable `error` values. */
module Wrappers {

  datatype Option<+T> = None | Some(value: T)

}
