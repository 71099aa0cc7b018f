/** Value types of the comment store: the comment record, its user, and the error outcomes. */
module Records {

  /** Primary key of a comment (a UUID string in the database). */
  type Id = string

  /** Primary key of the owning application (the tenant). */
  type AppId = string

  /** The part of the Django user that the store looks at: its key and its active flag. */
  datatype User = User(id: string, isActive: bool)

  /** One stored comment row. The tree placement is the `parent` link alone. */
  datatype Comment = Comment(
    parent: Option<Id>,
    objectId: Option<string>,
    application: AppId,
    user: User,
    content: string,
    contentHtml: string
  )

  datatype Option<+T> = None | Some(value: T)

  /**
   Errors the model raises: Django's `ValidationError` with its message, a failed lookup, or the
   tree library's refusal of a move, with its message.
   */
  datatype Error = ValidationError(message: string) | DoesNotExist | InvalidMove(message: string)

  datatype Result<+T> = Ok(value: T) | Err(error: Error)

  /** Outcome of a validation that produces no value. */
  datatype Check = Pass | Fail(error: Error)

  /** The store: comment rows keyed by id. */
  type Rows = map<Id, Comment>

  /** Referential integrity of the `parent` foreign key: every parent link names a stored row. */
  ghost predicate Linked(db: Rows)
  {
    forall k :: k in db && db[k].parent.Some? ==> db[k].parent.value in db
  }
}
