/**
 * The application-wide exception translator. Each handler answers one kind
 * of exception with two statuses: the one its `@ResponseStatus` puts on the
 * HTTP response, and the `httpStatus` field of the error envelope it
 * returns, which for two of the handlers differ.
 */
module GlobalExceptionHandler {
  import opened Wrappers
  import opened JavaString
  import opened ResponseContainerEntity
  import opened ApiResponseContainer
  import opened EmployeeServiceImpl
  import Constants

  /** The literal text `extractMessage` splits on. */
  const KeyDelimiter: string := " for key "

  /**
   * `extractMessage`: the first piece of splitting the message on
   * `" for key "`, or the whole message when the split is empty.
   */
  function ExtractMessage(originalMessage: string): (r: string)
    ensures r <= originalMessage
    ensures !Contains(originalMessage, KeyDelimiter) ==> r == originalMessage
  {
    var parts := Split(originalMessage, KeyDelimiter);
    if |parts| > 0 then
      SplitHead(originalMessage, KeyDelimiter);
      parts[0]
    else originalMessage
  }

  /**
   * With a match, the extracted message is the text before the first
   * `" for key "`, except for a message made only of repetitions of it,
   * whose split is empty and which falls back to the whole message.
   */
  lemma ExtractMessageCutsAtFirstKey(m: string)
    requires Contains(m, KeyDelimiter)
    ensures IndexOf(m, KeyDelimiter).Some?
    ensures (exists k :: 1 <= k && m == Repeat(KeyDelimiter, k)) ==> ExtractMessage(m) == m
    ensures !(exists k :: 1 <= k && m == Repeat(KeyDelimiter, k)) ==>
      ExtractMessage(m) == m[..IndexOf(m, KeyDelimiter).value]
  {
    SplitEmptyIff(m, KeyDelimiter);
    if exists k :: 1 <= k && m == Repeat(KeyDelimiter, k) {
      var k :| 1 <= k && m == Repeat(KeyDelimiter, k);
      assert Split(Repeat(KeyDelimiter, k), KeyDelimiter) == [];
    } else {
      SplitHead(m, KeyDelimiter);
    }
  }

  /**
   * When no `" for key "` starts inside `a`, the message `a + " for key " + b`
   * is cut to `a`, whatever `b` holds.
   */
  lemma ExtractBeforeFirstKey(a: string, b: string)
    requires a != "" && !Contains(a + KeyDelimiter[..8], KeyDelimiter)
    ensures ExtractMessage(a + KeyDelimiter + b) == a
  {
    var m := a + KeyDelimiter + b;
    var s := a + KeyDelimiter[..8];
    assert m[..|s|] == s;
    assert m[|a|..|a| + 9] == KeyDelimiter;
    forall j | 0 <= j < |a|
      ensures !OccursAt(m, KeyDelimiter, j)
    {
      assert !OccursAt(s, KeyDelimiter, j);
      assert s[j..j + 9] == m[..|s|][j..j + 9] == m[j..j + 9];
    }
    FirstMatch(m, KeyDelimiter, |a|);
    forall k | 1 <= k
      ensures m != Repeat(KeyDelimiter, k)
    {
      RepeatStartsWithPattern(KeyDelimiter, k);
      assert OccursAt(Repeat(KeyDelimiter, k), KeyDelimiter, 0);
      assert !OccursAt(m, KeyDelimiter, 0);
    }
    ExtractMessageCutsAtFirstKey(m);
    assert m[..|a|] == a;
  }

  /** A `" for key "` needs a `'k'` five characters after its start, so none starts inside text without one. */
  lemma NoKeyStartsIn(a: string)
    requires 'k' !in a
    ensures !Contains(a + KeyDelimiter[..8], KeyDelimiter)
  {
    var s := a + KeyDelimiter[..8];
    assert 'k' !in KeyDelimiter[..5];
    forall j | 0 <= j && j + 9 <= |s|
      ensures !OccursAt(s, KeyDelimiter, j)
    {
      assert s[j + 5] != 'k' by {
        if j + 5 < |a| {
          assert s[j + 5] == a[j + 5] && a[j + 5] in a;
        } else {
          assert s[j + 5] == KeyDelimiter[..5][j + 5 - |a|];
        }
      }
      assert s[j..j + 9][5] == s[j + 5];
    }
  }

  /** The message a duplicate username draws from the database keeps the text before its key name. */
  lemma ExtractDuplicateEntry()
    ensures ExtractMessage("Duplicate entry 'ann1' for key 'employees.username'") == "Duplicate entry 'ann1'"
  {
    var a := "Duplicate entry 'ann1'";
    var b := "'employees.username'";
    var m := a + KeyDelimiter + b;
    assert m == "Duplicate entry 'ann1' for key 'employees.username'";
    NoKeyStartsIn(a);
    ExtractBeforeFirstKey(a, b);
  }

  /** A repetition of the pattern starts with the pattern. */
  lemma RepeatStartsWithPattern(d: string, k: nat)
    requires 1 <= k
    ensures |Repeat(d, k)| >= |d| && Repeat(d, k)[..|d|] == d
  {
    assert Repeat(d, k) == d + Repeat(d, k - 1);
  }

  /** What a handler produces: the status of the HTTP response and the envelope in its body. */
  datatype HandlerResponse = HandlerResponse(responseStatus: HttpStatus, container: ResponseContainer<map<string, string>>)

  /** A duplicate or missing column: `409` on the wire, `BAD_REQUEST` in the envelope, the cause cut at its key name. */
  function HandleDataIntegrityViolation(mostSpecificCauseMessage: string): (r: HandlerResponse)
    ensures r.responseStatus == Conflict
    ensures r.container.httpStatus == Some(HttpStatus.BadRequest) && r.container.isError
    ensures r.container.message == Some(Constants.InvalidRequestContent)
    ensures r.container.body.Some? && r.container.body.value.Keys == {Constants.ErrorKey}
    ensures r.container.body.value[Constants.ErrorKey] == ExtractMessage(mostSpecificCauseMessage)
  {
    var errors := map[Constants.ErrorKey := ExtractMessage(mostSpecificCauseMessage)];
    HandlerResponse(Conflict, GetResponseOfAll(Constants.InvalidRequestContent, Some(errors), HttpStatus.BadRequest, true))
  }

  /** A lookup of an absent row: `404` on the wire, `BAD_REQUEST` in the envelope, the message as both key and value. */
  function HandleNoSuchElement(message: string): (r: HandlerResponse)
    ensures r.responseStatus == NotFound
    ensures r.container.httpStatus == Some(HttpStatus.BadRequest) && r.container.isError
    ensures r.container.message == Some(Constants.ObjectNotFound)
    ensures r.container.body.Some? && r.container.body.value.Keys == {message}
    ensures r.container.body.value[message] == message
  {
    var errors := map[message := message];
    HandlerResponse(NotFound, GetResponseOfAll(Constants.ObjectNotFound, Some(errors), HttpStatus.BadRequest, true))
  }

  /** An unmapped path: `NOT_FOUND` both on the wire and in the envelope. */
  function HandleNoResourceFound(message: string): (r: HandlerResponse)
    ensures r.responseStatus == NotFound
    ensures r.container.httpStatus == Some(NotFound) && r.container.isError
    ensures r.container.message == Some(Constants.ResourceNotFound)
    ensures r.container.body.Some? && r.container.body.value.Keys == {Constants.ErrorKey}
    ensures r.container.body.value[Constants.ErrorKey] == message
  {
    var errors := map[Constants.ErrorKey := message];
    HandlerResponse(NotFound, GetResponseOfAll(Constants.ResourceNotFound, Some(errors), NotFound, true))
  }

  /** The text `Collectors.joining(", ")` makes of the supported method names. */
  const MethodSeparator: string := ", "

  /**
   * A verb the path does not accept: `METHOD_NOT_ALLOWED` both on the wire and
   * in the envelope, naming the attempted verb and the supported ones.
   */
  function HandleMethodNotSupported(message: string, attemptedMethod: string, supportedMethods: seq<string>): (r: HandlerResponse)
    ensures r.responseStatus == HttpStatus.MethodNotAllowed
    ensures r.container.httpStatus == Some(HttpStatus.MethodNotAllowed) && r.container.isError
    ensures r.container.message == Some(Constants.MethodNotAllowed)
    ensures r.container.body.Some?
    ensures r.container.body.value.Keys == {Constants.ErrorKey, Constants.AttemptedMethodKey, Constants.SupportedMethodsKey}
    ensures r.container.body.value[Constants.ErrorKey] == message
    ensures r.container.body.value[Constants.AttemptedMethodKey] == attemptedMethod
    ensures r.container.body.value[Constants.SupportedMethodsKey] == Join(supportedMethods, MethodSeparator)
  {
    var errors := map[
      Constants.ErrorKey := message,
      Constants.AttemptedMethodKey := attemptedMethod,
      Constants.SupportedMethodsKey := Join(supportedMethods, MethodSeparator)];
    HandlerResponse(HttpStatus.MethodNotAllowed, GetResponseOfAll(Constants.MethodNotAllowed, Some(errors), HttpStatus.MethodNotAllowed, true))
  }

  lemma MethodSeparatorIsBorderFree()
    ensures BorderFree(MethodSeparator)
  {
    assert MethodSeparator[..1][0] != MethodSeparator[1..][0];
  }

  /**
   * A client splitting `Supported_Methods` on `", "` gets the supported verbs
   * back, in order; no verb is lost when there are none (the text is empty).
   */
  lemma SupportedMethodsReadBack(supportedMethods: seq<string>)
    requires forall i :: 0 <= i < |supportedMethods| ==> supportedMethods[i] != "" && ',' !in supportedMethods[i]
    ensures supportedMethods == [] ==> Join(supportedMethods, MethodSeparator) == ""
    ensures supportedMethods != [] ==> Split(Join(supportedMethods, MethodSeparator), MethodSeparator) == supportedMethods
  {
    if supportedMethods != [] {
      MethodSeparatorIsBorderFree();
      forall i | 0 <= i < |supportedMethods|
        ensures !Contains(supportedMethods[i], MethodSeparator)
      {
        var name := supportedMethods[i];
        forall j | 0 <= j < |name|
          ensures name[j] != MethodSeparator[0]
        {
          assert name[j] in name;
        }
        CharAbsent(name, MethodSeparator);
      }
      SplitOfJoin(supportedMethods, MethodSeparator);
    }
  }

  /** A missing or malformed body: `BAD_REQUEST` both on the wire and in the envelope, with fixed error texts. */
  function HandleMessageNotReadable(message: string): (r: HandlerResponse)
    ensures r.responseStatus == HttpStatus.BadRequest
    ensures r.container.httpStatus == Some(HttpStatus.BadRequest) && r.container.isError
    ensures r.container.message == Some(Constants.BadRequest)
    ensures r.container.body.Some?
    ensures r.container.body.value.Keys == {Constants.ErrorKey, Constants.MessageKey, Constants.DetailsKey}
    ensures r.container.body.value[Constants.ErrorKey] == Constants.BadRequest
    ensures r.container.body.value[Constants.MessageKey] == Constants.RequestBodyMissing
    ensures r.container.body.value[Constants.DetailsKey] == message
  {
    var errors := map[
      Constants.ErrorKey := Constants.BadRequest,
      Constants.MessageKey := Constants.RequestBodyMissing,
      Constants.DetailsKey := message];
    HandlerResponse(HttpStatus.BadRequest, GetResponseOfAll(Constants.BadRequest, Some(errors), HttpStatus.BadRequest, true))
  }

  /** The exceptions the translator catches, each with what its handler reads from it. */
  datatype HandledException =
    | DataIntegrityViolationException(mostSpecificCauseMessage: string)
    | NoSuchElementException(message: string)
    | NoResourceFoundException(message: string)
    | HttpRequestMethodNotSupportedException(message: string, attemptedMethod: string, supportedMethods: seq<string>)
    | HttpMessageNotReadableException(message: string)

  /**
   * The dispatch to the handler for the exception's class. Every answer is a
   * flagged error envelope with a message, a body and a client-error status,
   * and the two statuses disagree exactly for the data and lookup failures.
   */
  function Handle(ex: HandledException): (r: HandlerResponse)
    ensures r.container.isError && r.container.message.Some? && r.container.body.Some?
    ensures r.responseStatus.IsClientError()
    ensures r.container.httpStatus.Some? && r.container.httpStatus.value.IsClientError()
    ensures r.container.httpStatus.value != r.responseStatus <==>
      ex.DataIntegrityViolationException? || ex.NoSuchElementException?
  {
    match ex
    case DataIntegrityViolationException(cause) => HandleDataIntegrityViolation(cause)
    case NoSuchElementException(message) => HandleNoSuchElement(message)
    case NoResourceFoundException(message) => HandleNoResourceFound(message)
    case HttpRequestMethodNotSupportedException(message, attemptedMethod, supported) => HandleMethodNotSupported(message, attemptedMethod, supported)
    case HttpMessageNotReadableException(message) => HandleMessageNotReadable(message)
  }

  /**
   * The exception behind a service failure: `Optional.get()` on an absent id
   * throws with its fixed message; the table's refusal carries the database's
   * message, which is a parameter here.
   */
  function Thrown(e: ServiceError, databaseMessage: string): HandledException
  {
    match e
    case NoSuchElement => NoSuchElementException(Constants.NoValuePresent)
    case DataIntegrityViolation(_) => DataIntegrityViolationException(databaseMessage)
  }

  /**
   * Updating or deleting an absent id is answered `404` with a `BAD_REQUEST`
   * envelope whose body maps "No value present" to itself; a refused save is
   * answered `409` with the database message cut at its key name.
   */
  lemma ServiceFailureResponse(e: ServiceError, databaseMessage: string)
    ensures e.NoSuchElement? ==>
      && Handle(Thrown(e, databaseMessage)).responseStatus == NotFound
      && Handle(Thrown(e, databaseMessage)).container.httpStatus == Some(HttpStatus.BadRequest)
      && Handle(Thrown(e, databaseMessage)).container.body == Some(map[Constants.NoValuePresent := Constants.NoValuePresent])
    ensures e.DataIntegrityViolation? ==>
      && Handle(Thrown(e, databaseMessage)).responseStatus == Conflict
      && Handle(Thrown(e, databaseMessage)).container.httpStatus == Some(HttpStatus.BadRequest)
      && Handle(Thrown(e, databaseMessage)).container.body == Some(map[Constants.ErrorKey := ExtractMessage(databaseMessage)])
  {
    var r := Handle(Thrown(e, databaseMessage));
    if e.NoSuchElement? {
      assert r.container.body.value == map[Constants.NoValuePresent := Constants.NoValuePresent];
    } else {
      assert r.container.body.value == map[Constants.ErrorKey := ExtractMessage(databaseMessage)];
    }
  }
}
