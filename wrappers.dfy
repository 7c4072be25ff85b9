/** An optional value: Go's nil-able `error` is modelled as Option<string>, the string being
    what the error's Error() method returns. */
module Wrappers {

  datatype Option<+T> = None | Some(value: T)
}
