/** Result and option types shared by every module, and JavaScript truthiness of optional text. */
module Common {

  /** A value that may be absent: `undefined` or `null` in the request body, a lookup that found nothing. */
  datatype Option<+T> = None | Some(value: T)

  /** The outcome of a handler: a value, or the error the handler answers with. */
  datatype Result<+T, +E> = Ok(value: T) | Err(error: E)

  /** `if (x)` on an optional string field: it is present and not the empty string. */
  predicate Truthy(field: Option<string>)
  {
    field.Some? && field.value != ""
  }
}
