/** The shape of a route handler's JSON reply, and JavaScript truthiness of
    request fields. */
module Http {
  import opened Wrappers

  /** A reply: either a body with its status, or `{ error: message }` with its status. */
  datatype Response<+T> = Reply(status: nat, body: T) | Fail(status: nat, message: string)

  const StatusOk: nat := 200
  const StatusCreated: nat := 201
  const StatusBadRequest: nat := 400
  const StatusNotFound: nat := 404
  const StatusServerError: nat := 500

  /** A string field is truthy when present and non-empty. */
  predicate Truthy(field: Option<string>) {
    field.Some? && field.value != ""
  }

  /** The rejection both article-creating routes give for a missing title or content. */
  const MissingTitleOrContent: string := "标题和内容不能为空"
}
