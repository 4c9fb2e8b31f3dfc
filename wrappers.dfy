/** Result shapes shared by the registry model: Java's `Optional` and the
    success/error result that a decoder hands back. */
module Wrappers {

  /** An optional value: `Optional.of(v)` is `Some(v)`, `Optional.empty()` is `None`. */
  datatype Option<T> = None | Some(value: T)

  /** The outcome of decoding: a value, or an error carrying a readable message. */
  datatype DataResult<R> = Success(value: R) | Error(message: string)
}
