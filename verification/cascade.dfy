/** The language model as an oracle, and the JSON recovery cascade that
    turns the first reply into a parsed value: strict parse of the
    fence-stripped text, then the brace candidate of the raw reply, then a
    single repair call whose reply is only trimmed before parsing. */
module Cascade {
  import opened Text
  import opened Json
  import opened Sanitize

  /** Why the handler calls the model. */
  datatype Purpose = Extraction | Repair

  /** One call to generate_content; the temperature is its generation setting. */
  datatype Call = Call(purpose: Purpose, temperature: real)

  /** What one call yields: the reply text, or an exception with its text. */
  datatype Reply = Replied(text: string) | Failed(message: string)

  /** The model as an oracle: the replies it will give, in call order, and
      the calls made so far. A call beyond the scripted replies fails. */
  datatype Model = Model(script: seq<Reply>, calls: seq<Call>)

  const ExtractionTemperature: real := 0.3
  const RepairTemperature: real := 0.1
  const ExtractionCall := Call(Extraction, ExtractionTemperature)
  const RepairCall := Call(Repair, RepairTemperature)
  const NoReply := "no reply"

  /** Makes call `c`: the next scripted reply is returned and the call is logged. */
  function Generate(m: Model, c: Call): (out: (Reply, Model))
    ensures out.1 == Model(m.script, m.calls + [c])
    ensures |m.calls| < |m.script| ==> out.0 == m.script[|m.calls|]
    ensures |m.calls| >= |m.script| ==> out.0.Failed?
  {
    var reply := if |m.calls| < |m.script| then m.script[|m.calls|] else Failed(NoReply);
    (reply, Model(m.script, m.calls + [c]))
  }

  const InvalidJson := "Invalid JSON response: "
  const InvalidAfterRepair := "Invalid JSON response after repair attempt: "

  /** The parse stage of the handler for the first reply `content`. Every
      failure reports the decode error of the strict parse, except an
      exception json.loads raises other than JSONDecodeError, which escapes
      the stage as it is. */
  function Recover(content: string, m: Model, loads: string -> Decoded): (out: (Result<Json>, Model))
    ensures out.1.script == m.script
    // at most one call is made, and it is the repair call
    ensures out.1.calls == m.calls || out.1.calls == m.calls + [RepairCall]
    // no failure is an HTTPException
    ensures out.0.Err? ==> !out.0.error.HttpError?
    // strict parse of the fence-stripped text comes first
    ensures loads(StripFences(content)).Decoded? ==>
              out == (Ok(loads(StripFences(content)).value), m)
    // another exception from the strict parse escapes: no candidate, no repair
    ensures loads(StripFences(content)).Raised? ==>
              out == (Err(Escaped(loads(StripFences(content)))), m)
    // the brace candidate is taken from the raw reply, and only if strict parse failed
    ensures loads(StripFences(content)).DecodeError? && BraceCandidate(content).Some?
            && loads(BraceCandidate(content).value).Decoded? ==>
              out == (Ok(loads(BraceCandidate(content).value).value), m)
    // another exception from the candidate parse escapes: no repair
    ensures loads(StripFences(content)).DecodeError? && BraceCandidate(content).Some?
            && loads(BraceCandidate(content).value).Raised? ==>
              out == (Err(Escaped(loads(BraceCandidate(content).value))), m)
    // no brace candidate: fail at once, without a repair call
    ensures loads(StripFences(content)).DecodeError? && BraceCandidate(content).None? ==>
              out == (Err(ValueError(InvalidJson + loads(StripFences(content)).message)), m)
    // the repair call is made exactly when both parses fail
    ensures |out.1.calls| == |m.calls| + 1 <==>
              loads(StripFences(content)).DecodeError? && BraceCandidate(content).Some?
              && loads(BraceCandidate(content).value).DecodeError?
    // the repair reply is parsed after strip() alone; any exception there ends in the same ValueError
    ensures |out.1.calls| == |m.calls| + 1 ==>
              var reply := Generate(m, RepairCall).0;
              if reply.Replied? && loads(Strip(reply.text)).Decoded? then
                out.0 == Ok(loads(Strip(reply.text)).value)
              else
                out.0 == Err(ValueError(InvalidAfterRepair + loads(StripFences(content)).message))
  {
    match loads(StripFences(content))
    case Decoded(v) => (Ok(v), m)
    case Raised(_, _) => (Err(Escaped(loads(StripFences(content)))), m)
    case DecodeError(strictError) =>
      match BraceCandidate(content)
      case None => (Err(ValueError(InvalidJson + strictError)), m)
      case Some(candidate) =>
        match loads(candidate)
        case Decoded(v) => (Ok(v), m)
        case Raised(_, _) => (Err(Escaped(loads(candidate))), m)
        case DecodeError(_) =>
          var (reply, m') := Generate(m, RepairCall);
          var failure := Err(ValueError(InvalidAfterRepair + strictError));
          match reply
          case Failed(_) => (failure, m')
          case Replied(text) =>
            match loads(Strip(text))
            case Decoded(v) => (Ok(v), m')
            case _ => (failure, m')
  }
}
