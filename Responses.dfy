/** The response side of the handlers: a handler either answers with data
    (sendResponse with success = true) or passes an error on to the
    framework's error handler (next(err)). */
module Responses {

  /** What a handler passes to next(err): an AppError it threw on purpose,
      or a TypeError raised by the runtime when it dereferences a missing
      document. */
  datatype Failure =
    | AppError(statusCode: int, errorType: string, message: string)
    | TypeError(message: string)

  datatype Result<T> = Ok(value: T) | Err(failure: Failure)

  /** Every AppError in the controllers is a 400 "Bad Request". */
  function BadRequest(message: string): Failure
  {
    AppError(400, "Bad Request", message)
  }

  const CreateTaskError: string := "Create task error"
  const CreateUserError: string := "Create user error"
  const NoTaskFound: string := "No task found"
  const NoUserFound: string := "No user found"
  const NoUserWithId: string := "No user with the provided id"
  const InvalidObjectId: string := "Not a valid object id"
  const ArchiveOnly: string := "Can only change status to 'archive'"

  /** The runtime error of reading `tasks` from the null that findById
      resolves to when no user has the id. */
  const ReadTasksOfNull: Failure := TypeError("Cannot read properties of null (reading 'tasks')")
}
