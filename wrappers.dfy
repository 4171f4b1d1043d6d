/** The optional value used for lookups and decoders that can fail. */
module Wrappers {
  datatype Option<T> = None | Some(value: T)
}
