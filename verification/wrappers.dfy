/** An optional value, used where the model returns "maybe": a file that
    may not exist, a header that may not parse. */
module Wrappers {

  datatype Option<+T> = None | Some(value: T)
}
