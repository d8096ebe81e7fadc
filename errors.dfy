/** The two-tier error taxonomy: business errors raised by the use cases and
    API errors sent over HTTP (libs/errors). */
module Errors {
  import opened Wrappers

  // HTTP status codes, section 15 of RFC 9110
  const StatusBadRequest := 400
  const StatusUnauthorized := 401
  const StatusNotFound := 404
  const StatusMethodNotAllowed := 405
  const StatusInternalServerError := 500

  // Default messages of the API errors
  const BadRequestMessage := "invalid request parameters"
  const ResourceNotFoundMessage := "resource not found"
  const MethodNotAllowedMessage := "method not allowed on the current resource"
  const InternalServerErrorMessage := "internal Server Error"
  const UnauthorizedErrorMessage := "unauthorized"

  // Codes of the business errors
  const FatalErrorCode := "fatal_error"
  const NotFoundErrorCode := "not_found"
  const ValidationErrorCode := "validation_error"
  const UnauthorizedErrorCode := "unauthorized"

  const DecodeErrorMessage := "unexpected error when try to decode the error response"

  /** An error of the service and use-case layer. */
  datatype BusinessError = BusinessError(msg: string, err: string, fatal: bool) {
    /** The error's text, as Go's error interface reports it. */
    function Error(): (text: string)
      ensures text == msg
    {
      msg
    }
  }

  /** An error as sent in an HTTP response body. */
  datatype APIError = APIError(status: int, message: string, err: string)

  /** A value of Go's error interface: a business error or any other error,
      of which only the text is visible. */
  datatype ErrorValue = Business(business: BusinessError) | Other(text: string)

  function Text(e: ErrorValue): string
  {
    match e
    case Business(b) => b.Error()
    case Other(t) => t
  }

  /** The parts separated by sep, as strings.Join does. */
  function Join(parts: seq<string>, sep: string): string
  {
    if |parts| == 0 then ""
    else if |parts| == 1 then parts[0]
    else parts[0] + sep + Join(parts[1..], sep)
  }

  /** Appending one more part adds a separator and that part at the end. */
  lemma {:induction false} JoinAppend(parts: seq<string>, last: string, sep: string)
    requires |parts| > 0
    ensures Join(parts + [last], sep) == Join(parts, sep) + sep + last
  {
    var whole := parts + [last];
    if |parts| == 1 {
      assert whole[1..] == [last];
    } else {
      assert whole[1..] == parts[1..] + [last];
      JoinAppend(parts[1..], last, sep);
    }
  }

  /** The message of an API error built from optional messages: the default
      when none is given, otherwise all of them in order, " - " between two. */
  function JoinedOrDefault(messages: seq<string>, default: string): (m: string)
    ensures |messages| == 0 ==> m == default
    ensures |messages| == 1 ==> m == messages[0]
    ensures |messages| > 1 ==>
      m == JoinedOrDefault(messages[..|messages| - 1], default) + " - " + messages[|messages| - 1]
  {
    if |messages| > 1 then
      var init := messages[..|messages| - 1];
      assert init + [messages[|messages| - 1]] == messages;
      JoinAppend(init, messages[|messages| - 1], " - ");
      Join(messages, " - ")
    else if |messages| == 1 then messages[0]
    else default
  }

  function NewAPIError(code: int, message: string, err: string): (e: APIError)
    ensures e.status == code && e.message == message && e.err == err
  {
    APIError(code, message, err)
  }

  function NewBadRequest(messages: seq<string>): (e: APIError)
    ensures e.status == StatusBadRequest && e.err == "bad_request"
    ensures e.message == JoinedOrDefault(messages, BadRequestMessage)
  {
    NewAPIError(StatusBadRequest, JoinedOrDefault(messages, BadRequestMessage), "bad_request")
  }

  function NewResourceNotFound(messages: seq<string>): (e: APIError)
    ensures e.status == StatusNotFound && e.err == "not_found"
    ensures e.message == JoinedOrDefault(messages, ResourceNotFoundMessage)
  {
    NewAPIError(StatusNotFound, JoinedOrDefault(messages, ResourceNotFoundMessage), "not_found")
  }

  function NewMethodNotAllowed(messages: seq<string>): (e: APIError)
    ensures e.status == StatusMethodNotAllowed && e.err == "method_not_allowed"
    ensures e.message == JoinedOrDefault(messages, MethodNotAllowedMessage)
  {
    NewAPIError(StatusMethodNotAllowed, JoinedOrDefault(messages, MethodNotAllowedMessage), "method_not_allowed")
  }

  function NewUnauthorizedError(messages: seq<string>): (e: APIError)
    ensures e.status == StatusUnauthorized && e.err == "unauthorized"
    ensures e.message == JoinedOrDefault(messages, UnauthorizedErrorMessage)
  {
    NewAPIError(StatusUnauthorized, JoinedOrDefault(messages, UnauthorizedErrorMessage), "unauthorized")
  }

  function NewInternalServerError(messages: seq<string>): (e: APIError)
    ensures e.status == StatusInternalServerError && e.err == "internal_error"
    ensures e.message == JoinedOrDefault(messages, InternalServerErrorMessage)
  {
    NewAPIError(StatusInternalServerError, JoinedOrDefault(messages, InternalServerErrorMessage), "internal_error")
  }

  function NewBusinessError(msg: string, err: string): (e: BusinessError)
    ensures e.Error() == msg && e.err == err && !e.fatal
  {
    BusinessError(msg, err, false)
  }

  function NewFatalError(msg: string): (e: BusinessError)
    ensures e.Error() == msg && e.err == FatalErrorCode && e.fatal
  {
    BusinessError(msg, FatalErrorCode, true)
  }

  function NewNotFoundError(msg: string): (e: BusinessError)
    ensures e.Error() == msg && e.err == NotFoundErrorCode && !e.fatal
  {
    BusinessError(msg, NotFoundErrorCode, false)
  }

  function NewValidationError(msg: string): (e: BusinessError)
    ensures e.Error() == msg && e.err == ValidationErrorCode && !e.fatal
  {
    BusinessError(msg, ValidationErrorCode, false)
  }

  function NewBusinessUnauthorizedError(msg: string): (e: BusinessError)
    ensures e.Error() == msg && e.err == UnauthorizedErrorCode && !e.fatal
  {
    BusinessError(msg, UnauthorizedErrorCode, false)
  }

  /** The HTTP form of an error. The code checks come before the fatal flag. */
  function HandleBusinessError(e: ErrorValue): (r: APIError)
    ensures r.message == Text(e)
    ensures r.err == (if e.Business? then e.business.err else "internal_error")
    ensures r.status in {StatusBadRequest, StatusUnauthorized, StatusNotFound, StatusInternalServerError}
    ensures r.status == StatusNotFound <==> e.Business? && e.business.err == NotFoundErrorCode
    ensures r.status == StatusUnauthorized <==> e.Business? && e.business.err == UnauthorizedErrorCode
    ensures r.status == StatusBadRequest <==>
      e.Business? && e.business.err != NotFoundErrorCode && e.business.err != UnauthorizedErrorCode
      && !e.business.fatal
  {
    match e
    case Business(b) =>
      if b.err == NotFoundErrorCode then NewResourceNotFound([b.msg])
      else if b.err == UnauthorizedErrorCode then NewUnauthorizedError([b.msg])
      else if !b.fatal then NewAPIError(StatusBadRequest, b.msg, b.err)
      else NewAPIError(StatusInternalServerError, b.msg, b.err)
    case Other(_) => NewInternalServerError([Text(e)])
  }

  /** The business error for an error body received from another service;
      None stands for a body that does not decode. The dispatch is on the
      decoded body's status; the status argument is not consulted. */
  function HandleFetcherErrorResponse(status: int, decoded: Option<APIError>): (b: BusinessError)
    ensures decoded.None? ==> b == NewFatalError(DecodeErrorMessage)
    ensures decoded.Some? ==> b.Error() == decoded.value.message
    ensures decoded.Some? ==>
      (b.fatal <==> decoded.value.status !in {StatusBadRequest, StatusUnauthorized, StatusNotFound})
    ensures decoded.Some? ==> b.err == match decoded.value.status
      case 400 => decoded.value.err
      case 401 => UnauthorizedErrorCode
      case 404 => NotFoundErrorCode
      case _ => FatalErrorCode
  {
    match decoded
    case None => NewFatalError(DecodeErrorMessage)
    case Some(apiErr) =>
      if apiErr.status == StatusBadRequest then NewBusinessError(apiErr.message, apiErr.err)
      else if apiErr.status == StatusUnauthorized then NewBusinessUnauthorizedError(apiErr.message)
      else if apiErr.status == StatusNotFound then NewNotFoundError(apiErr.message)
      else NewFatalError(apiErr.message)
  }

  /** A decoded error body, handled and then translated back to HTTP, keeps
      its message; 401 and 404 keep their status; a 400 body stays 400 unless
      its code is "not_found" or "unauthorized"; every other status becomes 500. */
  lemma FetchedThenHandled(status: int, body: APIError)
    ensures var r := HandleBusinessError(Business(HandleFetcherErrorResponse(status, Some(body))));
      && r.message == body.message
      && r.status == (
        if body.status == StatusUnauthorized || body.status == StatusNotFound then body.status
        else if body.status == StatusBadRequest then
          (if body.err == NotFoundErrorCode then StatusNotFound
           else if body.err == UnauthorizedErrorCode then StatusUnauthorized
           else StatusBadRequest)
        else StatusInternalServerError)
  {
  }

  /** Every business error the constructors can build (a non-fatal one, or a
      fatal one coded "fatal_error") survives a trip through an HTTP error body. */
  lemma HandledThenFetched(status: int, b: BusinessError)
    requires !b.fatal || b.err == FatalErrorCode
    ensures HandleFetcherErrorResponse(status, Some(HandleBusinessError(Business(b)))) == b
  {
  }

  /** A fatal error coded "not_found" does not survive that trip: it is
      reported as 404 and comes back as a non-fatal not-found error. */
  lemma FatalNotFoundIsNotKept(status: int, msg: string)
    ensures var b := BusinessError(msg, NotFoundErrorCode, true);
      HandleFetcherErrorResponse(status, Some(HandleBusinessError(Business(b)))) == NewNotFoundError(msg)
  {
  }
}
