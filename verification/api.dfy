/**
 The small vocabulary shared by the handlers: an optional value, the error an
 `ApiException` carries (a status code and a message), a result that is either a
 value or such an error, and the status codes the handlers use.
 */
module Api {

  datatype Option<+T> = None | Some(value: T) {
    function GetOr(default: T): T {
      match this
      case Some(v) => v
      case None => default
    }
  }

  /** An `ApiException`: the HTTP status it reports and its message. */
  datatype ApiError = ApiError(status: int, message: string)

  datatype Result<+T> = Ok(value: T) | Err(error: ApiError) {
    predicate IsFailure() {
      Err?
    }

    function PropagateFailure<U>(): Result<U>
      requires Err?
    {
      Err(error)
    }

    function Extract(): T
      requires Ok?
    {
      value
    }
  }

  // The status codes of `SC` that the modelled handlers use.
  const Sc200Ok := 200
  const Sc400BadRequest := 400
  const Sc401Unauthorized := 401
  const Sc403Forbidden := 403
  const Sc404NotFound := 404
  const Sc500InternalServerError := 500
}
