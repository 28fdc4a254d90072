/**
 * The uniform response envelope: a body, an HTTP status, an error flag and
 * a message. Each of the seven constructors sets the fields it is given and
 * leaves the others at Java's defaults, null and `false`.
 */
module ResponseContainerEntity {
  import opened Wrappers

  /** The `HttpStatus` values the application uses. */
  datatype HttpStatus = Ok | Created | NoContent | BadRequest | NotFound | MethodNotAllowed | Conflict
  {
    /** The status code, as section 15 of RFC 9110 assigns it. */
    function Code(): int
    {
      match this
      case Ok => 200
      case Created => 201
      case NoContent => 204
      case BadRequest => 400
      case NotFound => 404
      case MethodNotAllowed => 405
      case Conflict => 409
    }

    predicate IsClientError()
    {
      400 <= Code() < 500
    }
  }

  /** The envelope's four fields; `None` is a null field. */
  datatype ResponseContainer<T> = ResponseContainer(
    body: Option<T>,
    httpStatus: Option<HttpStatus>,
    isError: bool,
    message: Option<string>)

  /** The fields before any constructor assigns one. */
  function Defaults<T>(): (r: ResponseContainer<T>)
    ensures r.body.None? && r.httpStatus.None? && !r.isError && r.message.None?
  {
    ResponseContainer(None, None, false, None)
  }

  /** `new ResponseContainerEntity(body)`. */
  function OfBody<T>(body: Option<T>): (r: ResponseContainer<T>)
    ensures r.body == body
    ensures r.httpStatus.None? && !r.isError && r.message.None?
  {
    Defaults().(body := body)
  }

  /** `new ResponseContainerEntity(httpStatus)`. */
  function OfStatus<T>(httpStatus: HttpStatus): (r: ResponseContainer<T>)
    ensures r.httpStatus == Some(httpStatus)
    ensures r.body.None? && !r.isError && r.message.None?
  {
    Defaults().(httpStatus := Some(httpStatus))
  }

  /** `new ResponseContainerEntity(message, body)`. */
  function OfMessageAndBody<T>(message: string, body: Option<T>): (r: ResponseContainer<T>)
    ensures r.message == Some(message) && r.body == body
    ensures r.httpStatus.None? && !r.isError
  {
    Defaults().(message := Some(message), body := body)
  }

  /** `new ResponseContainerEntity(message, body, httpStatus)`. */
  function OfMessageBodyAndStatus<T>(message: string, body: Option<T>, httpStatus: HttpStatus): (r: ResponseContainer<T>)
    ensures r.message == Some(message) && r.body == body && r.httpStatus == Some(httpStatus)
    ensures !r.isError
  {
    Defaults().(message := Some(message), body := body, httpStatus := Some(httpStatus))
  }

  /** `new ResponseContainerEntity(message, httpStatus)`. */
  function OfMessageAndStatus<T>(message: string, httpStatus: HttpStatus): (r: ResponseContainer<T>)
    ensures r.message == Some(message) && r.httpStatus == Some(httpStatus)
    ensures r.body.None? && !r.isError
  {
    Defaults().(httpStatus := Some(httpStatus), message := Some(message))
  }

  /** `new ResponseContainerEntity(message, body, isError)`. */
  function OfMessageBodyAndError<T>(message: string, body: Option<T>, isError: bool): (r: ResponseContainer<T>)
    ensures r.message == Some(message) && r.body == body && r.isError == isError
    ensures r.httpStatus.None?
  {
    Defaults().(message := Some(message), body := body, isError := isError)
  }

  /** `new ResponseContainerEntity(message, body, httpStatus, isError)`. */
  function OfAll<T>(message: string, body: Option<T>, httpStatus: HttpStatus, isError: bool): (r: ResponseContainer<T>)
    ensures r.message == Some(message) && r.body == body && r.httpStatus == Some(httpStatus) && r.isError == isError
  {
    Defaults().(message := Some(message), body := body, httpStatus := Some(httpStatus), isError := isError)
  }
}
