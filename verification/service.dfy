/** The /extract handler end to end: the service-token gate, the first
    model call, the recovery cascade, validation, and the mapping of every
    exception to an HTTP status. */
module Service {
  import opened Text
  import opened Json
  import opened Sanitize
  import opened Cascade
  import opened Schema

  /** What the handler answers: the response body, or an HTTP error. */
  datatype Response = Success(body: ExtractResponse) | Failure(status: nat, detail: string)

  /** The answer together with the model calls made to reach it. */
  datatype Outcome = Outcome(response: Response, calls: seq<Call>)

  /** The Python behaviour the model takes as given: json.loads, and str()
      of floats, lists and dicts. */
  datatype Runtime = Runtime(loads: string -> Decoded, render: Json -> string)

  const UnprocessableStatus: nat := 422
  const UnavailableStatus: nat := 503
  const InternalStatus: nat := 500
  const UnauthorizedStatus: nat := 401

  const ModelErrorPrefix := "Gemini API error: "
  const FormatPrefix := "Invalid response format: "
  const InternalPrefix := "Internal error: "
  const InvalidToken := "Invalid service token"

  /** The lower-cased text mentions the API or Gemini. */
  predicate MentionsApi(message: string) {
    Contains(Lower(message), "api") || Contains(Lower(message), "gemini")
  }

  /** The handler's outer `except` clauses. */
  function Classify(e: Exception): (r: Response)
    ensures r.Failure?
    ensures e.ValueError? ==> r == Failure(UnprocessableStatus, FormatPrefix + e.message)
    ensures e.HttpError? ==> r == Failure(e.status, e.detail)
    ensures e.OtherError? ==> r.status == UnavailableStatus || r.status == InternalStatus
    ensures e.OtherError? ==> (r.status == UnavailableStatus <==> MentionsApi(e.message))
    ensures e.OtherError? && MentionsApi(e.message) ==> r == Failure(UnavailableStatus, ModelErrorPrefix + e.message)
    ensures e.OtherError? && !MentionsApi(e.message) ==> r == Failure(InternalStatus, InternalPrefix + e.message)
  {
    match e
    case ValueError(message) => Failure(UnprocessableStatus, FormatPrefix + message)
    case HttpError(status, detail) => Failure(status, detail)
    case OtherError(message) =>
      if MentionsApi(message) then Failure(UnavailableStatus, ModelErrorPrefix + message)
      else Failure(InternalStatus, InternalPrefix + message)
  }

  /** Both parses of the first reply failed while a brace candidate
      existed: the condition for the repair call. */
  predicate RepairNeeded(script: seq<Reply>, loads: string -> Decoded) {
    && 0 < |script| && script[0].Replied?
    && loads(StripFences(script[0].text)).DecodeError?
    && BraceCandidate(script[0].text).Some?
    && loads(BraceCandidate(script[0].text).value).DecodeError?
  }

  /** The cascade on the first reply, after the extraction call. */
  function Cascaded(content: string, script: seq<Reply>, loads: string -> Decoded): (out: (Result<Json>, seq<Call>))
    ensures out.1 == [ExtractionCall] || out.1 == [ExtractionCall, RepairCall]
    ensures out.0.Err? ==> !out.0.error.HttpError?
  {
    var recovered := Recover(content, Model(script, [ExtractionCall]), loads);
    if |recovered.1.calls| == 1 then
      assert recovered.1.calls == [ExtractionCall];
      (recovered.0, recovered.1.calls)
    else
      assert recovered.1.calls == [ExtractionCall] + [RepairCall];
      (recovered.0, [ExtractionCall, RepairCall])
  }

  /** The first call at temperature 0.3, whose failure is rewrapped as a
      ValueError, followed by the recovery cascade. */
  function Parse(script: seq<Reply>, loads: string -> Decoded): (out: (Result<Json>, seq<Call>))
    // the model is called once or twice: extraction at 0.3, then at most one repair at 0.1
    ensures out.1 == [ExtractionCall] || out.1 == [ExtractionCall, RepairCall]
    // no failure up to here is an HTTPException
    ensures out.0.Err? ==> !out.0.error.HttpError?
  {
    var (first, m1) := Generate(Model(script, []), ExtractionCall);
    assert m1.calls == [ExtractionCall];
    match first
    case Failed(message) => (Err(ValueError(ModelErrorPrefix + message)), m1.calls)
    case Replied(content) => Cascaded(content, script, loads)
  }

  /** The repair call is made exactly when both parses of the first reply failed. */
  lemma RepairCallExactlyWhenNeeded(script: seq<Reply>, loads: string -> Decoded)
    ensures |Parse(script, loads).1| == 2 <==> RepairNeeded(script, loads)
  {
    if 0 < |script| && script[0].Replied? {
      ParseOfReply(script, loads);
    } else {
      ParseOfFailure(script, loads);
    }
  }

  /** The body of the handler's `try`: parsing, then validation. */
  function Run(script: seq<Reply>, rt: Runtime): (out: (Result<ExtractResponse>, seq<Call>))
    ensures out.1 == Parse(script, rt.loads).1
    // the only HTTPException is the declined 422
    ensures out.0.Err? && out.0.error.HttpError? ==> out.0.error.status == DeclinedStatus
    // a response is the validation of the value parsing produced
    ensures out.0.Ok? ==> && Parse(script, rt.loads).0.Ok?
                          && Validate(Parse(script, rt.loads).0.value, rt.render) == out.0
  {
    var (parsed, calls) := Parse(script, rt.loads);
    match parsed
    case Err(e) => (Err(e), calls)
    case Ok(data) => (Validate(data, rt.render), calls)
  }

  /** When the first call yields text, parsing is the cascade on that text. */
  lemma ParseOfReply(script: seq<Reply>, loads: string -> Decoded)
    requires 0 < |script| && script[0].Replied?
    ensures Parse(script, loads) == Cascaded(script[0].text, script, loads)
  {
    assert [] + [ExtractionCall] == [ExtractionCall];
    assert Generate(Model(script, []), ExtractionCall) == (script[0], Model(script, [ExtractionCall]));
  }

  /** When the first call fails, parsing ends there with its message. */
  lemma ParseOfFailure(script: seq<Reply>, loads: string -> Decoded)
    requires |script| == 0 || script[0].Failed?
    ensures var message := if |script| == 0 then NoReply else script[0].message;
            Parse(script, loads) == (Err(ValueError(ModelErrorPrefix + message)), [ExtractionCall])
  {
    assert [] + [ExtractionCall] == [ExtractionCall];
  }

  /** The fence-stripped first reply parses: its value, after one call. */
  lemma ParseStrict(script: seq<Reply>, loads: string -> Decoded)
    requires 0 < |script| && script[0].Replied?
    requires loads(StripFences(script[0].text)).Decoded?
    ensures Parse(script, loads) == (Ok(loads(StripFences(script[0].text)).value), [ExtractionCall])
  {
    ParseOfReply(script, loads);
  }

  /** Only the brace candidate parses: its value, after one call. */
  lemma ParseCandidate(script: seq<Reply>, loads: string -> Decoded)
    requires 0 < |script| && script[0].Replied?
    requires loads(StripFences(script[0].text)).DecodeError?
    requires BraceCandidate(script[0].text).Some?
    requires loads(BraceCandidate(script[0].text).value).Decoded?
    ensures Parse(script, loads) == (Ok(loads(BraceCandidate(script[0].text).value).value), [ExtractionCall])
  {
    ParseOfReply(script, loads);
  }

  /** The strict parse fails and there is no candidate: the strict error, after one call. */
  lemma ParseNoCandidate(script: seq<Reply>, loads: string -> Decoded)
    requires 0 < |script| && script[0].Replied?
    requires loads(StripFences(script[0].text)).DecodeError?
    requires BraceCandidate(script[0].text).None?
    ensures Parse(script, loads)
            == (Err(ValueError(InvalidJson + loads(StripFences(script[0].text)).message)), [ExtractionCall])
  {
    ParseOfReply(script, loads);
  }

  /** Both parses fail: the trimmed repair reply decides, after two calls. */
  lemma ParseRepaired(script: seq<Reply>, loads: string -> Decoded)
    requires RepairNeeded(script, loads)
    ensures Parse(script, loads).1 == [ExtractionCall, RepairCall]
    ensures 1 < |script| && script[1].Replied? && loads(Strip(script[1].text)).Decoded? ==>
              Parse(script, loads).0 == Ok(loads(Strip(script[1].text)).value)
    ensures !(1 < |script| && script[1].Replied? && loads(Strip(script[1].text)).Decoded?) ==>
              Parse(script, loads).0
              == Err(ValueError(InvalidAfterRepair + loads(StripFences(script[0].text)).message))
  {
    ParseOfReply(script, loads);
    RepairCallExactlyWhenNeeded(script, loads);
    var m1 := Model(script, [ExtractionCall]);
    assert Generate(m1, RepairCall).0 == if |script| < 2 then Failed(NoReply) else script[1];
  }

  /** extract_recipe once the token is accepted. */
  function Extract(script: seq<Reply>, rt: Runtime): (out: Outcome)
    // the model is called once or twice: extraction at 0.3, then at most one repair at 0.1
    ensures out.calls == [ExtractionCall] || out.calls == [ExtractionCall, RepairCall]
    // the repair call is made exactly when both parses of the first reply failed
    ensures |out.calls| == 2 <==> RepairNeeded(script, rt.loads)
    // every failure carries one of the handler's statuses
    ensures out.response.Failure? ==>
              out.response.status in {UnprocessableStatus, UnavailableStatus, InternalStatus}
    // a response is the validation of the value parsing produced
    ensures out.response.Success? ==>
              && Parse(script, rt.loads).0.Ok?
              && Validate(Parse(script, rt.loads).0.value, rt.render) == Ok(out.response.body)
  {
    RepairCallExactlyWhenNeeded(script, rt.loads);
    var (result, calls) := Run(script, rt);
    match result
    case Ok(response) => Outcome(Success(response), calls)
    case Err(e) => Outcome(Classify(e), calls)
  }

  /** A parse failure is classified as it stands. */
  lemma ExtractOfParseFailure(script: seq<Reply>, rt: Runtime)
    requires Parse(script, rt.loads).0.Err?
    ensures Extract(script, rt) == Outcome(Classify(Parse(script, rt.loads).0.error), Parse(script, rt.loads).1)
  {
  }

  /** A parsed value is validated; an accepted one is the response. */
  lemma ExtractOfParsed(script: seq<Reply>, rt: Runtime)
    requires Parse(script, rt.loads).0.Ok?
    requires Validate(Parse(script, rt.loads).0.value, rt.render).Ok?
    ensures Extract(script, rt)
            == Outcome(Success(Validate(Parse(script, rt.loads).0.value, rt.render).value), Parse(script, rt.loads).1)
  {
  }

  /** The strict parse raising anything but a JSONDecodeError skips the
      brace candidate and the repair call: the exception is classified as
      it stands, after one call. */
  lemma EscapingLoadsErrorSkipsRecovery(script: seq<Reply>, rt: Runtime)
    requires 0 < |script| && script[0].Replied?
    requires rt.loads(StripFences(script[0].text)).Raised?
    ensures Extract(script, rt)
            == Outcome(Classify(Escaped(rt.loads(StripFences(script[0].text)))), [ExtractionCall])
  {
    ParseOfReply(script, rt.loads);
    ExtractOfParseFailure(script, rt);
  }

  /** A parsed value that validation rejects is classified by the rejection. */
  lemma ExtractOfRejected(script: seq<Reply>, rt: Runtime)
    requires Parse(script, rt.loads).0.Ok?
    requires Validate(Parse(script, rt.loads).0.value, rt.render).Err?
    ensures Extract(script, rt)
            == Outcome(Classify(Validate(Parse(script, rt.loads).0.value, rt.render).error), Parse(script, rt.loads).1)
  {
  }

  /** verify_service_token: with no token configured (or an empty one)
      every request passes; otherwise the header must equal it. */
  predicate TokenAccepted(configured: Option<string>, header: Option<string>) {
    configured.None? || configured.value == "" || header == configured
  }

  /** The /extract endpoint: the token gate, then extract_recipe. */
  function HandleExtract(configured: Option<string>, header: Option<string>,
                         script: seq<Reply>, rt: Runtime): (out: Outcome)
    ensures !TokenAccepted(configured, header) ==>
              out == Outcome(Failure(UnauthorizedStatus, InvalidToken), [])
    ensures TokenAccepted(configured, header) ==> out == Extract(script, rt)
    // a rejected request never reaches the model; an accepted one always calls it
    ensures |out.calls| == 0 <==> configured.Some? && configured.value != "" && header != configured
    ensures header == configured ==> out == Extract(script, rt)
  {
    if TokenAccepted(configured, header) then Extract(script, rt)
    else Outcome(Failure(UnauthorizedStatus, InvalidToken), [])
  }

  /** The AttributeError `.lower()` raises on None mentions neither the
      API nor Gemini, so it is classified as an internal error. */
  lemma NoneAttributeErrorIsInternal()
    ensures var message := NoAttribute(Null, "lower");
            Classify(OtherError(message)) == Failure(InternalStatus, InternalPrefix + message)
  {
    var message := NoAttribute(Null, "lower");
    NoAttributeLowerOnNoneLacksPi();
    NoAttributeLowerOnNoneLacksG();
    AbsentPair(message, "api", 1);
    AbsentLetter(message, "gemini", 0);
  }

  /** A failed first call is reported as 422, not 503, because the handler
      rewraps it as a ValueError; nothing else is called. */
  lemma FirstCallFailureIs422(script: seq<Reply>, rt: Runtime)
    requires |script| == 0 || script[0].Failed?
    ensures var message := if |script| == 0 then NoReply else script[0].message;
            Extract(script, rt)
            == Outcome(Failure(UnprocessableStatus, FormatPrefix + ModelErrorPrefix + message), [ExtractionCall])
  {
    ParseOfFailure(script, rt.loads);
  }

  /** A reply that parses strictly, after fence stripping, to a serialised
      response is returned unchanged after one call. */
  lemma WellFormedReplyPassesThrough(script: seq<Reply>, rt: Runtime, r: ExtractResponse)
    requires 0 < |script| && script[0].Replied?
    requires rt.loads(StripFences(script[0].text)) == Decoded(ToJson(r))
    requires Reproducible(r)
    ensures Extract(script, rt) == Outcome(Success(r), [ExtractionCall])
  {
    ParseStrict(script, rt.loads);
    ValidateToJsonRoundTrip(r, rt.render);
    ExtractOfParsed(script, rt);
  }

  /** Prose around a JSON object: when the stripped text does not parse but
      the object does, the object is validated and no repair call is made. */
  lemma ProseWrappedReplyNeedsNoRepair(script: seq<Reply>, rt: Runtime,
                                       before: string, payload: string, after: string)
    requires 0 < |script| && script[0] == Replied(before + payload + after)
    requires |payload| >= 2 && payload[0] == '{' && payload[|payload| - 1] == '}'
    requires forall k :: 0 <= k < |before| ==> before[k] != '{'
    requires forall k :: 0 <= k < |after| ==> after[k] != '}'
    requires rt.loads(StripFences(before + payload + after)).DecodeError?
    requires rt.loads(payload).Decoded?
    ensures Extract(script, rt).calls == [ExtractionCall]
    ensures Validate(rt.loads(payload).value, rt.render).Ok? ==>
              Extract(script, rt).response == Success(Validate(rt.loads(payload).value, rt.render).value)
  {
    BraceCandidateInProse(before, payload, after);
    ParseCandidate(script, rt.loads);
    if Validate(rt.loads(payload).value, rt.render).Ok? {
      ExtractOfParsed(script, rt);
    }
  }

  /** Without a `{` before a `}` in the first reply, a failed strict parse
      ends the request with 422 and no repair call. */
  lemma NoCandidateNoRepair(script: seq<Reply>, rt: Runtime)
    requires 0 < |script| && script[0].Replied?
    requires rt.loads(StripFences(script[0].text)).DecodeError?
    requires forall i, j :: !BraceSpan(script[0].text, i, j)
    ensures Extract(script, rt)
            == Outcome(Failure(UnprocessableStatus,
                               FormatPrefix + InvalidJson + rt.loads(StripFences(script[0].text)).message),
                       [ExtractionCall])
  {
    var strictError := rt.loads(StripFences(script[0].text)).message;
    BraceCandidateSpan(script[0].text);
    ParseNoCandidate(script, rt.loads);
    ExtractOfParseFailure(script, rt);
    ConcatAssoc(FormatPrefix, InvalidJson, strictError);
  }

  /** When the repair reply is missing, fails, or does not parse after
      strip(), the request ends with 422 after exactly two calls, and the
      error quotes the strict-parse error of the first reply. */
  lemma RepairExhausted(script: seq<Reply>, rt: Runtime)
    requires 0 < |script| && script[0].Replied?
    requires rt.loads(StripFences(script[0].text)).DecodeError?
    requires BraceCandidate(script[0].text).Some?
    requires rt.loads(BraceCandidate(script[0].text).value).DecodeError?
    requires |script| < 2 || script[1].Failed? || !rt.loads(Strip(script[1].text)).Decoded?
    ensures Extract(script, rt)
            == Outcome(Failure(UnprocessableStatus,
                               FormatPrefix + InvalidAfterRepair + rt.loads(StripFences(script[0].text)).message),
                       [ExtractionCall, RepairCall])
  {
    var strictError := rt.loads(StripFences(script[0].text)).message;
    ParseRepaired(script, rt.loads);
    ExtractOfParseFailure(script, rt);
    ConcatAssoc(FormatPrefix, InvalidAfterRepair, strictError);
  }

  /** The repair reply is parsed after strip() alone: when it parses, its
      value is validated, even if fence stripping would have changed it. */
  lemma RepairReplyOnlyTrimmed(script: seq<Reply>, rt: Runtime)
    requires 1 < |script| && script[0].Replied? && script[1].Replied?
    requires rt.loads(StripFences(script[0].text)).DecodeError?
    requires BraceCandidate(script[0].text).Some?
    requires rt.loads(BraceCandidate(script[0].text).value).DecodeError?
    requires rt.loads(Strip(script[1].text)).Decoded?
    ensures Extract(script, rt).calls == [ExtractionCall, RepairCall]
    ensures var data := rt.loads(Strip(script[1].text)).value;
            Validate(data, rt.render).Ok? ==> Extract(script, rt).response == Success(Validate(data, rt.render).value)
  {
    var data := rt.loads(Strip(script[1].text)).value;
    ParseRepaired(script, rt.loads);
    if Validate(data, rt.render).Ok? {
      ExtractOfParsed(script, rt);
    }
  }

  /** An empty recipe whose description is JSON null makes .lower() raise
      an AttributeError, which escapes the ValueError handler and, naming
      neither the API nor Gemini, is reported as 500 after one call. */
  lemma NullDescriptionOnEmptyRecipeIs500(script: seq<Reply>, rt: Runtime, fields: map<string, Json>)
    requires 0 < |script| && script[0].Replied?
    requires rt.loads(StripFences(script[0].text)) == Decoded(Obj(fields))
    requires "title" in fields && "ingredients" in fields && "steps" in fields
    requires fields["ingredients"] == Arr([]) && fields["steps"].Arr?
    requires "description" in fields && fields["description"] == Null
    ensures Extract(script, rt)
            == Outcome(Failure(InternalStatus, InternalPrefix + NoAttribute(Null, "lower")),
                       [ExtractionCall])
  {
    var message := NoAttribute(Null, "lower");
    ParseStrict(script, rt.loads);
    assert In("title", Obj(fields)) == Ok(true);
    assert DeclineCheck(fields) == Err(OtherError(message));
    assert Validate(Obj(fields), rt.render) == Err(OtherError(message));
    ExtractOfRejected(script, rt);
    NoneAttributeErrorIsInternal();
  }
}
