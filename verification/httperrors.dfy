/**
  The structured errors of package httperrors: their Error() texts, their
  constructors and Unwrap. The wrapped error is a Go error value (None for nil).
 */
module HttpErrors {
  import opened Basics
  import GoErrors
  import Text

  // ---------------------------------------------------------------------------
  // Error
  // ---------------------------------------------------------------------------

  /** httperrors.Error. */
  datatype HttpError = HttpError(code: int, message: string, details: string, err: Option<GoErrors.Error>)

  /** Error(): the message, followed by ": " and the details when there are any. */
  function ErrorText(e: HttpError): (t: string)
    ensures Text.HasPrefix(t, e.message)
    ensures e.details == "" <==> t == e.message
    ensures e.details != "" ==> Text.HasSuffix(t, e.details) && |t| == |e.message| + 2 + |e.details|
  {
    if e.details != "" then
      var t := e.message + ": " + e.details;
      assert t[..|e.message|] == e.message;
      assert t[|t| - |e.details|..] == e.details;
      t
    else e.message
  }

  /** Unwrap returns the wrapped error, nil when there is none. */
  function Unwrap(e: HttpError): Option<GoErrors.Error>
  {
    e.err
  }

  /** NewError: no details and nothing wrapped, so the text is the message itself. */
  function NewError(code: int, message: string): (e: HttpError)
    ensures e.code == code && e.message == message
    ensures e.details == "" && Unwrap(e).None?
    ensures ErrorText(e) == message
  {
    HttpError(code, message, "", None)
  }

  /** NewErrorWithDetails: the details are kept, nothing is wrapped. */
  function NewErrorWithDetails(code: int, message: string, details: string): (e: HttpError)
    ensures e.code == code && e.message == message && e.details == details && Unwrap(e).None?
  {
    HttpError(code, message, details, None)
  }

  /**
    NewErrorWithErr: the wrapped error's text becomes the details, and Unwrap gives the
    wrapped error back. A nil error makes err.Error() panic, so `err` is never nil here.
   */
  function NewErrorWithErr(code: int, message: string, err: GoErrors.Error): (e: HttpError)
    ensures e.code == code && e.message == message
    ensures Unwrap(e) == Some(err)
    ensures e.details == GoErrors.Message(err)
  {
    HttpError(code, message, GoErrors.Message(err), Some(err))
  }

  /**
    The text of an error built around another one: "message: inner text", except when the
    inner error prints as the empty string, in which case it is the bare message.
   */
  lemma WithErrText(code: int, message: string, err: GoErrors.Error)
    ensures GoErrors.Message(err) != "" ==>
              ErrorText(NewErrorWithErr(code, message, err)) == message + ": " + GoErrors.Message(err)
    ensures GoErrors.Message(err) == "" ==> ErrorText(NewErrorWithErr(code, message, err)) == message
  {
  }

  // ---------------------------------------------------------------------------
  // APIError
  // ---------------------------------------------------------------------------

  /** httperrors.APIError. */
  datatype APIError = APIError(code: int, message: string, details: string, err: Option<GoErrors.Error>)

  const APIErrorPrefix: string := "API error (code "

  /** Error(): the code and the message, then " - details" when there are details. */
  function APIErrorText(e: APIError): string
  {
    var head := APIErrorPrefix + Text.Decimal(e.code) + "): " + e.message;
    if e.details != "" then head + " - " + e.details else head
  }

  function APIUnwrap(e: APIError): Option<GoErrors.Error>
  {
    e.err
  }

  /** The code always shows: it can be read back from the text, whatever the message and details. */
  lemma APIErrorNamesCode(e: APIError)
    ensures Text.HasPrefix(APIErrorText(e), APIErrorPrefix)
    ensures Text.ParseDecimal(Text.FieldAfter(APIErrorText(e), APIErrorPrefix, ')')) == Some(e.code)
  {
    var t := APIErrorText(e);
    var tail := ": " + e.message + (if e.details != "" then " - " + e.details else "");
    assert t == APIErrorPrefix + Text.Decimal(e.code) + [')'] + tail;
    Text.DecimalFieldRoundTrip(APIErrorPrefix, e.code, ')', tail);
    assert t[..|APIErrorPrefix|] == APIErrorPrefix;
  }

  /** The details are appended, after " - ", exactly when there are some. */
  lemma APIErrorDetails(e: APIError)
    ensures e.details != "" ==> APIErrorText(e) == APIErrorText(e.(details := "")) + " - " + e.details
    ensures e.details == "" ==> APIErrorText(e) == APIErrorPrefix + Text.Decimal(e.code) + "): " + e.message
  {
  }

  function NewAPIError(code: int, message: string): (e: APIError)
    ensures e.code == code && e.message == message
    ensures e.details == "" && APIUnwrap(e).None?
  {
    APIError(code, message, "", None)
  }

  function NewAPIErrorWithDetails(code: int, message: string, details: string): (e: APIError)
    ensures e.code == code && e.message == message && e.details == details && APIUnwrap(e).None?
  {
    APIError(code, message, details, None)
  }

  /** NewAPIErrorWithErr: the wrapped error's text becomes the details; Unwrap gives the error back. */
  function NewAPIErrorWithErr(code: int, message: string, err: GoErrors.Error): (e: APIError)
    ensures e.code == code && e.message == message
    ensures APIUnwrap(e) == Some(err)
    ensures e.details == GoErrors.Message(err)
  {
    APIError(code, message, GoErrors.Message(err), Some(err))
  }

  // ---------------------------------------------------------------------------
  // NetworkError
  // ---------------------------------------------------------------------------

  /** httperrors.NetworkError. */
  datatype NetworkError = NetworkError(message: string, err: Option<GoErrors.Error>)

  /** Error(): the message, followed by ": " and the wrapped error's text when there is one. */
  function NetworkErrorText(e: NetworkError): (t: string)
    ensures Text.HasPrefix(t, e.message)
    ensures e.err.None? ==> t == e.message
    ensures e.err.Some? ==> Text.HasSuffix(t, GoErrors.Message(e.err.value))
                            && |t| == |e.message| + 2 + |GoErrors.Message(e.err.value)|
  {
    match e.err
    case None => e.message
    case Some(inner) =>
      var t := e.message + ": " + GoErrors.Message(inner);
      assert t[..|e.message|] == e.message;
      assert t[|t| - |GoErrors.Message(inner)|..] == GoErrors.Message(inner);
      t
  }

  function NetworkUnwrap(e: NetworkError): Option<GoErrors.Error>
  {
    e.err
  }

  /** NewNetworkError keeps the error (nil allowed) for Unwrap. */
  function NewNetworkError(message: string, err: Option<GoErrors.Error>): (e: NetworkError)
    ensures e.message == message && NetworkUnwrap(e) == err
  {
    NetworkError(message, err)
  }

  /**
    A network error prints like fmt.Errorf("message: %w", err) when it wraps an error;
    unlike that wrapper it prints the bare message for a nil error.
   */
  lemma NetworkErrorLikeWrap(message: string, err: GoErrors.Error)
    ensures NetworkErrorText(NewNetworkError(message, Some(err))) == GoErrors.Message(GoErrors.Wrapped(message, Some(err)))
    ensures NetworkErrorText(NewNetworkError(message, None)) == message
  {
  }

  // ---------------------------------------------------------------------------
  // ValidationError
  // ---------------------------------------------------------------------------

  /** httperrors.ValidationError. */
  datatype ValidationError = ValidationError(fieldErrors: map<string, seq<string>>, nonFieldErrors: seq<string>)

  function NewValidationError(fieldErrors: map<string, seq<string>>, nonFieldErrors: seq<string>): (e: ValidationError)
    ensures e.fieldErrors == fieldErrors && e.nonFieldErrors == nonFieldErrors
  {
    ValidationError(fieldErrors, nonFieldErrors)
  }

  const ValidationFailed: string := "validation failed"

  /** The first field, in the map's range order, that has at least one message. */
  function FirstFieldWithErrors(fields: map<string, seq<string>>, order: seq<string>): (i: int)
    requires forall k :: k in order ==> k in fields
    ensures -1 <= i < |order|
    ensures i >= 0 ==> |fields[order[i]]| > 0
    ensures forall j :: 0 <= j < (if i < 0 then |order| else i) ==> |fields[order[j]]| == 0
  {
    if |order| == 0 then -1
    else if |fields[order[0]]| > 0 then 0
    else
      var t := FirstFieldWithErrors(fields, order[1..]);
      if t < 0 then -1 else t + 1
  }

  /**
    Error(): the first non-field message if any; otherwise "field: first message" for the
    first field met, in the map's range order `order`, that has messages; otherwise
    "validation failed".
   */
  function ValidationErrorText(e: ValidationError, order: seq<string>): string
    requires forall k :: k in order <==> k in e.fieldErrors
  {
    if |e.nonFieldErrors| > 0 then e.nonFieldErrors[0]
    else
      var i := FirstFieldWithErrors(e.fieldErrors, order);
      if i >= 0 then order[i] + ": " + e.fieldErrors[order[i]][0]
      else ValidationFailed
  }

  /**
    Whatever the range order: a non-field message wins; otherwise the text names some
    field that has messages, with its first message; "validation failed" only when no
    field has any message.
   */
  lemma ValidationTextAnyOrder(e: ValidationError, order: seq<string>)
    requires forall k :: k in order <==> k in e.fieldErrors
    ensures |e.nonFieldErrors| > 0 ==> ValidationErrorText(e, order) == e.nonFieldErrors[0]
    ensures |e.nonFieldErrors| == 0 && (exists f :: f in e.fieldErrors && |e.fieldErrors[f]| > 0) ==>
              exists f :: f in e.fieldErrors && |e.fieldErrors[f]| > 0
                          && ValidationErrorText(e, order) == f + ": " + e.fieldErrors[f][0]
    ensures |e.nonFieldErrors| == 0 && (forall f :: f in e.fieldErrors ==> |e.fieldErrors[f]| == 0) ==>
              ValidationErrorText(e, order) == ValidationFailed
  {
    if |e.nonFieldErrors| == 0 {
      var i := FirstFieldWithErrors(e.fieldErrors, order);
      if i < 0 {
        forall f | f in e.fieldErrors
          ensures |e.fieldErrors[f]| == 0
        {
          var j :| 0 <= j < |order| && order[j] == f;
        }
      } else {
        assert order[i] in e.fieldErrors;
      }
    }
  }

  /** With a single field that has messages, the text no longer depends on the range order. */
  lemma ValidationTextSingleField(e: ValidationError, o1: seq<string>, o2: seq<string>, f: string)
    requires forall k :: k in o1 <==> k in e.fieldErrors
    requires forall k :: k in o2 <==> k in e.fieldErrors
    requires f in e.fieldErrors && |e.fieldErrors[f]| > 0
    requires forall g :: g in e.fieldErrors && g != f ==> |e.fieldErrors[g]| == 0
    ensures ValidationErrorText(e, o1) == ValidationErrorText(e, o2)
  {
    ValidationTextAnyOrder(e, o1);
    ValidationTextAnyOrder(e, o2);
  }
}
