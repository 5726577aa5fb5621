/** Small wrappers shared by the news pipeline model. */
module Common {

  /** A value that may be absent: JavaScript's `null` / `undefined` for one field. */
  datatype Option<+T> = None | Some(value: T)

  /** The outcome of one call to an external service (news feed, summariser, translator):
      the value it delivered, or any failure (transport, HTTP status, unexpected shape). */
  datatype Reply<+T> = Received(value: T) | Failed

  /** JavaScript truthiness of an optional string: `null`, `undefined` and `""` are falsy. */
  predicate Truthy(s: Option<string>)
  {
    s.Some? && s.value != ""
  }
}
