/**
 * The static `getResponse` factories, one per constructor of the envelope.
 * Java tells the overloads apart by their parameter types; here each has
 * its own name.
 */
module ApiResponseContainer {
  import opened Wrappers
  import opened ResponseContainerEntity

  /** `getResponse(body)`. */
  function GetResponseOfBody<T>(body: Option<T>): (r: ResponseContainer<T>)
    ensures r.body == body
    ensures r.httpStatus.None? && !r.isError && r.message.None?
  {
    OfBody(body)
  }

  /** `getResponse(httpStatus)`. */
  function GetResponseOfStatus<T>(httpStatus: HttpStatus): (r: ResponseContainer<T>)
    ensures r.httpStatus == Some(httpStatus)
    ensures r.body.None? && !r.isError && r.message.None?
  {
    OfStatus(httpStatus)
  }

  /** `getResponse(message, body)`. */
  function GetResponseOfMessageAndBody<T>(message: string, body: Option<T>): (r: ResponseContainer<T>)
    ensures r.message == Some(message) && r.body == body
    ensures r.httpStatus.None? && !r.isError
  {
    OfMessageAndBody(message, body)
  }

  /** `getResponse(message, httpStatus)`: no body; the form the delete handler uses. */
  function GetResponseOfMessageAndStatus<T>(message: string, httpStatus: HttpStatus): (r: ResponseContainer<T>)
    ensures r.message == Some(message) && r.httpStatus == Some(httpStatus)
    ensures r.body.None? && !r.isError
  {
    OfMessageAndStatus(message, httpStatus)
  }

  /** `getResponse(message, body, httpStatus)`: never an error; the form of every other controller handler. */
  function GetResponseOfMessageBodyAndStatus<T>(message: string, body: Option<T>, httpStatus: HttpStatus): (r: ResponseContainer<T>)
    ensures r.message == Some(message) && r.body == body && r.httpStatus == Some(httpStatus)
    ensures !r.isError
  {
    OfMessageBodyAndStatus(message, body, httpStatus)
  }

  /** `getResponse(message, body, isError)`. */
  function GetResponseOfMessageBodyAndError<T>(message: string, body: Option<T>, isError: bool): (r: ResponseContainer<T>)
    ensures r.message == Some(message) && r.body == body && r.isError == isError
    ensures r.httpStatus.None?
  {
    OfMessageBodyAndError(message, body, isError)
  }

  /** `getResponse(message, body, httpStatus, isError)`: the form of every exception handler. */
  function GetResponseOfAll<T>(message: string, body: Option<T>, httpStatus: HttpStatus, isError: bool): (r: ResponseContainer<T>)
    ensures r.message == Some(message) && r.body == body && r.httpStatus == Some(httpStatus) && r.isError == isError
  {
    OfAll(message, body, httpStatus, isError)
  }
}
