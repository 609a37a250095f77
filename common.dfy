/** Value types shared by the storage layer and the HTTP route handlers. */
module Common {

  datatype Option<T> = None | Some(value: T)

  /** An HTTP reply: a status code with either a JSON body or an `{ error }` object. */
  datatype Response<T> = Reply(status: nat, body: T) | ErrorReply(status: nat, error: string)

  /** Why the storage engine refused a write. */
  datatype DbError = ConstraintViolation | OtherFailure

  /** Result of a storage write: the new row id, or the engine's error. */
  datatype Outcome<T> = Done(value: T) | Failed(error: DbError)

  /** JavaScript truthiness of an optional string field of a request body
      (`undefined`, `null` and `""` are falsy). */
  predicate TruthyString(field: Option<string>) {
    field.Some? && field.value != ""
  }

  /** JavaScript truthiness of an optional numeric field of a request body
      (`undefined`, `null` and `0` are falsy). */
  predicate TruthyInt(field: Option<int>) {
    field.Some? && field.value != 0
  }
}
