/**
 * The records of domain/domain.go that the store-backed layers pass around,
 * and the task-status rule shared by the use cases and the services.
 */
module Domain {
  import opened Ascii

  /** `uuid.UUID`: only equality of ids matters to the model. */
  type Uuid = nat

  /** `domain.Task`; the due date is a time in seconds. */
  datatype Task = Task(id: Uuid, title: string, description: string, dueDate: int, status: string)

  /** `domain.User`; `password` holds whatever the caller or the hasher put there. */
  datatype User = User(id: Uuid, username: string, password: string, isAdmin: bool)

  const StatusError := "status error"

  /**
   * The status check of the use cases and of the store-backed service: the
   * lower-cased status must be "in progress", "completed" or "pending".
   */
  predicate ValidStatus(status: string)
  {
    var l := Lower(status);
    l == "in progress" || l == "completed" || l == "pending"
  }

  /** The check ignores ASCII case: a status and its lower-case form are judged alike. */
  lemma ValidStatusIgnoresCase(status: string)
    ensures ValidStatus(Lower(status)) <==> ValidStatus(status)
  {
    LowerIdempotent(status);
  }
}
