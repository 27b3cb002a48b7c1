/** Optional values, for the places where the kiosk script tests a value
    against `null`/`undefined`. */
module Wrappers {

  datatype Option<+T> = None | Some(value: T)
}
