/** The response envelope returned by every endpoint, and its three constructors. */
module Responses {
  import opened Options
  import opened Errors

  /** The error part of a failed response: an entry of the error table and a message. */
  datatype ExceptionDto = ExceptionDto(code: ErrorCode, message: string)

  /** Response<T>: a status (not serialised), a success flag, nullable data and error. */
  datatype Response<T> = Response(httpStatus: HttpStatus, success: bool, data: Option<T>, error: Option<ExceptionDto>)
  {
    /**
     * The shape the three constructors produce: a success carries no error and a 2xx
     * status; a failure carries no data, an error, and that error's own status.
     */
    predicate WellFormed() {
      if success then error.None? && httpStatus in {Ok, Created}
      else data.None? && error.Some? && httpStatus == error.value.code.Status()
    }
  }

  /** ok(data): status 200, success, the data, no error. */
  function OkResponse<T>(data: Option<T>): (r: Response<T>)
    ensures r.WellFormed() && r.success
    ensures r.httpStatus == Ok && r.httpStatus.Value() == 200
    ensures r.data == data && r.error.None?
  {
    Response(Ok, true, data, None)
  }

  /** created(data): status 201, success, the data, no error. */
  function CreatedResponse<T>(data: Option<T>): (r: Response<T>)
    ensures r.WellFormed() && r.success
    ensures r.httpStatus == Created && r.httpStatus.Value() == 201
    ensures r.data == data && r.error.None?
  {
    Response(Created, true, data, None)
  }

  /** fail(e): the status of e's error code, no success, no data, the error itself. */
  function FailResponse<T>(e: ExceptionDto): (r: Response<T>)
    ensures r.WellFormed() && !r.success
    ensures r.httpStatus == e.code.Status() && r.httpStatus.Value() >= 400
    ensures r.data.None? && r.error == Some(e)
  {
    Response(e.code.Status(), false, None, Some(e))
  }

  /** The status alone tells success from failure: 2xx exactly for the successful envelopes. */
  lemma StatusClassMatchesSuccess<T>(r: Response<T>)
    requires r.WellFormed()
    ensures r.success <==> 200 <= r.httpStatus.Value() < 300
  {
    if !r.success {
      match r.error.value.code
      case NotValidError =>
      case ExternalApiError =>
      case ExternalApiTimeout =>
      case ExternalApiNotFound =>
    }
  }

  /** A well-formed failure is the envelope fail builds from its error. */
  lemma FailureIsFailResponse<T>(r: Response<T>)
    requires r.WellFormed() && !r.success
    ensures r == FailResponse(r.error.value)
  {
  }
}
