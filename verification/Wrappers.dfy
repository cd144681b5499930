/** The result shapes and the wire errors shared by the other modules. */
module Wrappers {

  datatype Option<+T> = None | Some(value: T)

  datatype Result<+T, +E> = Ok(value: T) | Err(error: E)

  /** Why the codecs refuse bytes. */
  datatype WireError = InvalidRequest | MessageTooLarge
}
