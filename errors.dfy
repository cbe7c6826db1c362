/**
 * The application's error table (ErrorCode), the HTTP statuses it uses, and the
 * exceptions the core can raise, together with the result types that carry them.
 */
module Errors {

  /** The subset of Spring's HttpStatus that the application refers to. */
  datatype HttpStatus = Ok | Created | BadRequest | NotFound | RequestTimeout | ServiceUnavailable
  {
    function Value(): (v: int)
      ensures 200 <= v < 600
    {
      match this
      case Ok => 200
      case Created => 201
      case BadRequest => 400
      case NotFound => 404
      case RequestTimeout => 408
      case ServiceUnavailable => 503
    }
  }

  /** The four-entry error table: an HTTP status, a code string and a message per entry. */
  datatype ErrorCode = NotValidError | ExternalApiError | ExternalApiTimeout | ExternalApiNotFound
  {
    function Status(): HttpStatus {
      match this
      case NotValidError => BadRequest
      case ExternalApiError => ServiceUnavailable
      case ExternalApiTimeout => RequestTimeout
      case ExternalApiNotFound => NotFound
    }

    function Code(): string {
      match this
      case NotValidError => "A-001"
      case ExternalApiError => "A-002"
      case ExternalApiTimeout => "A-003"
      case ExternalApiNotFound => "A-004"
    }

    function Message(): string {
      match this
      case NotValidError => "잘못된 요청입니다."
      case ExternalApiError => "외부 API 호출 중 오류가 발생했습니다."
      case ExternalApiTimeout => "외부 API 호출 시간이 초과되었습니다."
      case ExternalApiNotFound => "요청한 데이터를 찾을 수 없습니다."
    }
  }

  /** Every entry of the table, in declaration order. */
  const AllErrorCodes: seq<ErrorCode> :=
    [NotValidError, ExternalApiError, ExternalApiTimeout, ExternalApiNotFound]

  /** The table as written: each entry's status value and code string. */
  lemma ErrorCodeTable()
    ensures NotValidError.Status().Value() == 400 && NotValidError.Code() == "A-001"
    ensures ExternalApiError.Status().Value() == 503 && ExternalApiError.Code() == "A-002"
    ensures ExternalApiTimeout.Status().Value() == 408 && ExternalApiTimeout.Code() == "A-003"
    ensures ExternalApiNotFound.Status().Value() == 404 && ExternalApiNotFound.Code() == "A-004"
  {
  }

  /** The code strings identify the entries: no two entries share a code. */
  lemma CodesAreDistinct(a: ErrorCode, b: ErrorCode)
    ensures a.Code() == b.Code() ==> a == b
  {
    if a != b {
      assert a.Code()[4] != b.Code()[4];
    }
  }

  /**
   * The exceptions the core raises: NoSuchElementException (a country lookup on an
   * absent code), DateTimeException (java.time rejecting a date) and BusinessException
   * carrying an ErrorCode.
   */
  datatype Error = NoSuchElement | DateTime | Business(code: ErrorCode)

  datatype Result<+T> = Success(value: T) | Failure(error: Error)

  /** A completion signal with no value (Java's void, or Mono<Void>). */
  datatype Outcome = Pass | Fail(error: Error)

  function ToOutcome<T>(r: Result<T>): (o: Outcome)
    ensures o.Pass? <==> r.Success?
    ensures o.Fail? ==> o.error == r.error
  {
    match r
    case Success(_) => Pass
    case Failure(e) => Fail(e)
  }
}
