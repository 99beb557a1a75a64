/** The base controller's two response builders, `errorResponse` and
    `successResponse`: every response the handlers build themselves is a
    four-field envelope `{errors, data, message, status}` sent with an HTTP
    status code. */
module Controller {
  import opened Wrappers
  import opened PhpValues

  /** The `status` field: the literal "success" or "error". */
  datatype Status = Success | Error {
    function Text(): (t: string)
      ensures t == "success" || t == "error"
    {
      match this
      case Success => "success"
      case Error => "error"
    }
  }

  /** Reads a status text back; anything but the two literals is unknown. */
  function StatusFromText(t: string): (r: Option<Status>)
    ensures r.Some? ==> r.value.Text() == t
  {
    if t == "success" then Some(Success)
    else if t == "error" then Some(Error)
    else None
  }

  /** The associative array handed to the JSON response. */
  datatype Envelope = Envelope(errors: Value, data: Value, message: Value, status: Status)

  /** An envelope together with the HTTP status code it is sent with. */
  datatype JsonResponse = JsonResponse(body: Envelope, code: int)

  const ErrorDefaultCode: int := 422
  const SuccessDefaultCode: int := 200

  /** The envelope invariant: a success carries no errors, an error carries
      no data. */
  predicate WellFormed(e: Envelope) {
    && (e.status == Success ==> e.errors == Null)
    && (e.status == Error ==> e.data == Null)
  }

  /** The message an error envelope carries: a message loosely equal to
      null is replaced by `errors` when that is a string. */
  function FallbackMessage(message: Value, errors: Value): (m: Value)
    ensures LooseEqNull(message) && IsString(errors) ==> m == errors
    ensures !LooseEqNull(message) ==> m == message
    ensures !IsString(errors) ==> m == message
    ensures IsString(errors) && errors != Str("") ==> !LooseEqNull(m)
  {
    if LooseEqNull(message) && IsString(errors) then errors else message
  }

  /** `errorResponse($message, $errors = null, $code = 422)`. */
  function ErrorResponse(message: Value, errors: Value := Null, code: int := ErrorDefaultCode): (r: JsonResponse)
    ensures r.body.status == Error && r.body.data == Null && WellFormed(r.body)
    ensures r.body.errors == errors
    ensures r.body.message == FallbackMessage(message, errors)
    ensures r.code == code
  {
    JsonResponse(Envelope(errors, Null, FallbackMessage(message, errors), Error), code)
  }

  /** `successResponse($message, $data = null, $code = 200)`. */
  function SuccessResponse(message: Value, data: Value := Null, code: int := SuccessDefaultCode): (r: JsonResponse)
    ensures r.body.status == Success && r.body.errors == Null && WellFormed(r.body)
    ensures r.body.message == message && r.body.data == data
    ensures r.code == code
  {
    JsonResponse(Envelope(Null, data, message, Success), code)
  }

  /** The array literal the builders pass on, keys in source order. */
  function ToPhpArray(e: Envelope): (v: Value)
    ensures v.Arr? && KeyList(v.entries) == EnvelopeKeys
    ensures v.entries[0].1 == e.errors && v.entries[1].1 == e.data && v.entries[2].1 == e.message
    ensures v.entries[3].1 == Str(e.status.Text())
  {
    Arr([ (StrKey("errors"), e.errors),
          (StrKey("data"), e.data),
          (StrKey("message"), e.message),
          (StrKey("status"), Str(e.status.Text())) ])
  }

  /** What a client reads back from such an array: the four fields by key,
      with a status text it recognises; None if any of them is missing. */
  function FromPhpArray(v: Value): (r: Option<Envelope>)
  {
    if !v.Arr? then None
    else
      var errors := Lookup(v.entries, StrKey("errors"));
      var data := Lookup(v.entries, StrKey("data"));
      var message := Lookup(v.entries, StrKey("message"));
      var status := Lookup(v.entries, StrKey("status"));
      if errors.None? || data.None? || message.None? || status.None? || !status.value.Str? then None
      else
        match StatusFromText(status.value.s)
        case Some(st) => Some(Envelope(errors.value, data.value, message.value, st))
        case None => None
  }

  const EnvelopeKeys: seq<Key> := [StrKey("errors"), StrKey("data"), StrKey("message"), StrKey("status")]

  // ---------------------------------------------------------------------
  // successResponse

  /** A success envelope has status "success" and errors null, whatever the
      arguments. */
  lemma SuccessIsSuccess(message: Value, data: Value, code: int)
    ensures SuccessResponse(message, data, code).body.status.Text() == "success"
    ensures SuccessResponse(message, data, code).body.errors == Null
  {
  }

  /** Message and data come back exactly as given; omitting data means null. */
  lemma SuccessPreservesPayload(message: Value, data: Value, code: int)
    ensures SuccessResponse(message, data, code).body.message == message
    ensures SuccessResponse(message, data, code).body.data == data
    ensures SuccessResponse(message) == SuccessResponse(message, Null, 200)
    ensures SuccessResponse(message).body.data == Null
  {
  }

  /** The code is 200 when omitted, otherwise the caller's, and never depends
      on message or data. */
  lemma SuccessCode(m1: Value, d1: Value, m2: Value, d2: Value, code: int)
    ensures SuccessResponse(m1, d1).code == 200
    ensures SuccessResponse(m1, d1, code).code == code
    ensures SuccessResponse(m1, d1, code).code == SuccessResponse(m2, d2, code).code
  {
  }

  /** The success responses are exactly the responses whose envelope has
      status "success" and errors null: each one is built from its own
      message, data and code, and from nothing else. */
  lemma SuccessImage(r: JsonResponse)
    ensures (exists m, d :: SuccessResponse(m, d, r.code) == r)
        <==> r.body.status == Success && r.body.errors == Null
  {
    if r.body.status == Success && r.body.errors == Null {
      assert SuccessResponse(r.body.message, r.body.data, r.code) == r;
    }
  }

  // ---------------------------------------------------------------------
  // errorResponse

  /** An error envelope has status "error" and data null, whatever the
      arguments. */
  lemma ErrorIsError(message: Value, errors: Value, code: int)
    ensures ErrorResponse(message, errors, code).body.status.Text() == "error"
    ensures ErrorResponse(message, errors, code).body.data == Null
  {
  }

  /** A message loosely equal to null (null, "", 0, 0.0, false, the empty
      array) is replaced by errors when errors is a string. */
  lemma ErrorMessageFallback(message: Value, s: string, code: int)
    requires LooseEqNull(message)
    ensures ErrorResponse(message, Str(s), code).body.message == Str(s)
  {
  }

  /** Otherwise the message passes through unchanged: a message that is not
      loosely null (such as "0"), or errors that are not a string (such as
      the default null). */
  lemma ErrorMessagePassThrough(message: Value, errors: Value, code: int)
    requires !LooseEqNull(message) || !IsString(errors)
    ensures ErrorResponse(message, errors, code).body.message == message
  {
  }

  /** "0" is not loosely null, so it is kept even beside a string errors;
      a null message with null errors stays null. */
  lemma ErrorMessageEdgeCases(errors: Value, code: int)
    ensures ErrorResponse(Str("0"), errors, code).body.message == Str("0")
    ensures ErrorResponse(Null, Null, code).body.message == Null
    ensures ErrorResponse(Null).body.message == Null
  {
  }

  /** errors is stored verbatim (null when omitted); the code is 422 when
      omitted and otherwise the caller's. */
  lemma ErrorErrorsAndCode(message: Value, errors: Value, code: int)
    ensures ErrorResponse(message, errors, code).body.errors == errors
    ensures ErrorResponse(message, errors, code).code == code
    ensures ErrorResponse(message, errors).code == 422
    ensures ErrorResponse(message).body.errors == Null
    ensures ErrorResponse(message).code == 422
  {
  }

  /** An error envelope built from a non-empty error string never carries a
      message that is loosely null. */
  lemma ErrorMessageInformative(message: Value, s: string, code: int)
    requires s != ""
    ensures !LooseEqNull(ErrorResponse(message, Str(s), code).body.message)
  {
  }

  /** Building an error response again from what an error response carries
      gives the same response: the fallback is idempotent. */
  lemma ErrorRebuildIdentity(message: Value, errors: Value, code: int)
    ensures var r := ErrorResponse(message, errors, code);
      ErrorResponse(r.body.message, r.body.errors, r.code) == r
  {
  }

  /** The error responses are exactly the responses with status "error",
      data null and a message the fallback could have produced: never a
      loosely null message beside a different string errors. */
  lemma ErrorImage(r: JsonResponse)
    ensures (exists m :: ErrorResponse(m, r.body.errors, r.code) == r)
        <==> && r.body.status == Error && r.body.data == Null
             && !(LooseEqNull(r.body.message) && IsString(r.body.errors) && r.body.message != r.body.errors)
  {
    var e := r.body;
    if e.status == Error && e.data == Null
       && !(LooseEqNull(e.message) && IsString(e.errors) && e.message != e.errors) {
      assert ErrorResponse(e.message, e.errors, r.code) == r;
    }
  }

  /** The handlers' catch blocks pass the literal "An error occurred", which
      is never loosely null: the exception text goes to errors only. */
  lemma HandlerErrorResponse(exceptionMessage: string)
    ensures var r := ErrorResponse(Str("An error occurred"), Str(exceptionMessage), 400);
      r.body.message == Str("An error occurred") && r.body.errors == Str(exceptionMessage)
      && r.code == 400
  {
  }

  // ---------------------------------------------------------------------
  // Both builders

  /** A success envelope and an error envelope never share a status, so no
      response is both. */
  lemma SuccessAndErrorDisjoint(m1: Value, d: Value, c1: int, m2: Value, e: Value, c2: int)
    ensures SuccessResponse(m1, d, c1).body.status.Text() != ErrorResponse(m2, e, c2).body.status.Text()
    ensures SuccessResponse(m1, d, c1) != ErrorResponse(m2, e, c2)
  {
  }

  /** Every envelope either builder produces has exactly the four keys
      errors, data, message, status, in that order. */
  lemma BuildersHaveFourKeys(message: Value, x: Value, code: int)
    ensures KeyList(ToPhpArray(SuccessResponse(message, x, code).body).entries) == EnvelopeKeys
    ensures KeyList(ToPhpArray(ErrorResponse(message, x, code).body).entries) == EnvelopeKeys
  {
  }

  /** Reading the array back yields the envelope that was encoded. */
  lemma ArrayRoundTrip(e: Envelope)
    ensures FromPhpArray(ToPhpArray(e)) == Some(e)
  {
    var entries := ToPhpArray(e).entries;
    LookupFirst(entries, 0, StrKey("errors"));
    LookupFirst(entries, 1, StrKey("data"));
    LookupFirst(entries, 2, StrKey("message"));
    LookupFirst(entries, 3, StrKey("status"));
    assert StatusFromText(e.status.Text()) == Some(e.status);
  }

  /** What a successful read says about the array, field by field. */
  lemma FromPhpArrayFields(v: Value, e: Envelope)
    requires FromPhpArray(v) == Some(e)
    ensures v.Arr?
    ensures Lookup(v.entries, StrKey("errors")) == Some(e.errors)
    ensures Lookup(v.entries, StrKey("data")) == Some(e.data)
    ensures Lookup(v.entries, StrKey("message")) == Some(e.message)
    ensures Lookup(v.entries, StrKey("status")) == Some(Str(e.status.Text()))
  {
  }

  /** Every field a successful read returns is stored in the array under
      its own key, at the first entry with that key. */
  lemma FromPhpArrayStored(v: Value, e: Envelope)
    requires FromPhpArray(v) == Some(e)
    ensures v.Arr?
    ensures exists i :: 0 <= i < |v.entries| && v.entries[i] == (StrKey("errors"), e.errors)
    ensures exists i :: 0 <= i < |v.entries| && v.entries[i] == (StrKey("data"), e.data)
    ensures exists i :: 0 <= i < |v.entries| && v.entries[i] == (StrKey("message"), e.message)
    ensures exists i :: 0 <= i < |v.entries| && v.entries[i] == (StrKey("status"), Str(e.status.Text()))
  {
    FromPhpArrayFields(v, e);
    LookupFound(v.entries, StrKey("errors"));
    LookupFound(v.entries, StrKey("data"));
    LookupFound(v.entries, StrKey("message"));
    LookupFound(v.entries, StrKey("status"));
  }

  /** Conversely, an array with exactly the four keys in order that reads
      back as an envelope is that envelope's array form. */
  lemma ArrayDecodeEncode(v: Value, e: Envelope)
    requires v.Arr? && KeyList(v.entries) == EnvelopeKeys
    requires FromPhpArray(v) == Some(e)
    ensures ToPhpArray(e) == v
  {
    FromPhpArrayFields(v, e);
    var entries := v.entries;
    assert |entries| == 4;
    assert entries[0].0 == StrKey("errors") && entries[1].0 == StrKey("data");
    assert entries[2].0 == StrKey("message") && entries[3].0 == StrKey("status");
    LookupFirst(entries, 0, StrKey("errors"));
    LookupFirst(entries, 1, StrKey("data"));
    LookupFirst(entries, 2, StrKey("message"));
    LookupFirst(entries, 3, StrKey("status"));
    assert ToPhpArray(e).entries == entries;
  }
}
