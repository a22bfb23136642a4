/**
  What a handler answers: an HTTP status and the JSON body, together with
  the database as the handler leaves it.
 */
module Http {
  import opened Schema
  import Db

  /** Why a handler's `catch` block ran: the database call threw, or a
      document failed its schema's validators. */
  datatype Fault = DbError(message: string) | ValidationError(errors: seq<FieldError>)

  datatype Pagination = Pagination(currentPage: nat, totalPages: nat, totalTasks: nat)

  /** A user as the API shows it: id, name and email, never the password. */
  datatype PublicUser = PublicUser(id: Id, name: string, email: string)

  datatype Body =
    | Message(message: string)
    | ServerError(message: string, error: Fault)
    | TaskDoc(task: Task)
    | TaskPage(tasks: seq<Task>, pagination: Pagination)
    | ProjectDoc(project: Project)
    | ProjectList(projects: seq<Project>)
    | UserList(users: seq<PublicUser>)
    | UserDoc(user: PublicUser)
    | Session(token: string, user: PublicUser)

  datatype Response = Response(status: nat, body: Body)

  datatype Exchange = Exchange(store: Db.Store, response: Response)

  const ServerErrorMessage: string := "Server error"

  /** The shared `catch` block: 500 with a fixed message and the error. */
  function ServerFailure(f: Fault): Response {
    Response(500, ServerError(ServerErrorMessage, f))
  }

  function Reply(status: nat, message: string): Response {
    Response(status, Message(message))
  }

  /** The projection `'name email'` (the id always comes along). */
  function Public(u: User): PublicUser {
    PublicUser(u.id, u.name, u.email)
  }
}
