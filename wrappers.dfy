/** The optional value used wherever the bot reads something that may be absent:
    an optional command argument, a lookup that finds nothing, a request not issued. */
module Wrappers {
  datatype Option<+T> = None | Some(value: T)
}
