/** Optional values and success/failure outcomes, used wherever the source
    relies on `null`, `undefined`, a thrown exception or a failed `JSON.parse`. */
module Wrappers {

  datatype Option<+T> = None | Some(value: T)

  datatype Result<+R, +E> = Success(value: R) | Failure(error: E)

  /** JavaScript truthiness of an optional string: `null`, `undefined` and
      `""` are all falsy. */
  predicate Truthy(s: Option<string>) {
    s.Some? && s.value != ""
  }
}
