/** Validation of the parsed value and assembly of the response: the
    presence and type checks on title, ingredients and steps, the
    "declined" short-circuit for an empty recipe, the per-step field checks
    reported 1-indexed, and the str()/int() coercions. */
module Schema {
  import opened Text
  import opened Json

  /** The `Step` model of the response. */
  datatype Step = Step(index: int, text: string, timestampSec: int)

  /** The `ExtractResponse` model. The description is passed through as
      parsed, with Null standing for Python's None. */
  datatype ExtractResponse = ExtractResponse(
    title: string,
    description: Json,
    ingredients: seq<string>,
    steps: seq<Step>)

  const MissingTitle := "Missing 'title' in response"
  const InvalidIngredients := "Missing or invalid 'ingredients' in response"
  const InvalidSteps := "Missing or invalid 'steps' in response"
  const DefaultDescription := "No recipe found in transcript"
  const DeclinedPrefix := "Recipe extraction failed: "
  const DeclinedStatus: nat := 422

  /** "Step n", the label of the n-th step (1-indexed) in error messages. */
  function StepLabel(n: nat): string {
    "Step " + NatToDecimal(n)
  }

  /** `data` is a dict whose `key` holds a list. */
  predicate HasList(data: Json, key: string) {
    data.Obj? && key in data.fields && data.fields[key].Arr?
  }

  /** `"key" not in data or not isinstance(data["key"], list)`, raising
      ValueError(message) when it holds, and otherwise the list itself. */
  function ListField(data: Json, key: string, message: string): (r: Result<seq<Json>>)
    ensures r.Ok? <==> HasList(data, key)
    ensures r.Ok? ==> r.value == data.fields[key].items
    ensures data.Obj? && r.Err? ==> r.error == ValueError(message)
  {
    match In(key, data)
    case Err(e) => Err(e)
    case Ok(present) =>
      if !present then Err(ValueError(message))
      else match Subscript(data, key)
        case Err(e) => Err(e)
        case Ok(x) => if x.Arr? then Ok(x.items) else Err(ValueError(message))
  }

  /** A step the loop accepts: a dict with the three keys whose index and
      timestamp_sec int() accepts. */
  predicate StepAccepted(step: Json) {
    && step.Obj?
    && "index" in step.fields && "text" in step.fields && "timestamp_sec" in step.fields
    && PyInt(step.fields["index"]).Ok?
    && PyInt(step.fields["timestamp_sec"]).Ok?
  }

  /** The Step built from an accepted step: ints coerced by int(), text by str(). */
  function Coerce(step: Json, render: Json -> string): Step
    requires StepAccepted(step)
  {
    Step(PyInt(step.fields["index"]).value,
         PyStr(step.fields["text"], render),
         PyInt(step.fields["timestamp_sec"]).value)
  }

  /** One iteration of the step loop for the n-th step (1-indexed). */
  function CheckStep(step: Json, n: nat, render: Json -> string): (r: Result<Step>)
    ensures r.Ok? <==> StepAccepted(step)
    ensures r.Ok? ==> r.value == Coerce(step, render)
    ensures r.Err? ==> !r.error.HttpError?
    ensures !step.Obj? ==> r == Err(ValueError(StepLabel(n) + " is not an object"))
    ensures (step.Obj? && !("index" in step.fields && "text" in step.fields && "timestamp_sec" in step.fields))
            ==> r == Err(ValueError(StepLabel(n) + " missing required fields"))
    // with the keys present, a failure is int()'s own exception: the index first, then the timestamp
    ensures step.Obj? && "index" in step.fields && "text" in step.fields && "timestamp_sec" in step.fields
            && PyInt(step.fields["index"]).Err?
            ==> r == Err(PyInt(step.fields["index"]).error)
    ensures step.Obj? && "index" in step.fields && "text" in step.fields && "timestamp_sec" in step.fields
            && PyInt(step.fields["index"]).Ok? && PyInt(step.fields["timestamp_sec"]).Err?
            ==> r == Err(PyInt(step.fields["timestamp_sec"]).error)
  {
    if !step.Obj? then Err(ValueError(StepLabel(n) + " is not an object"))
    else if !("index" in step.fields && "text" in step.fields && "timestamp_sec" in step.fields) then
      Err(ValueError(StepLabel(n) + " missing required fields"))
    else match PyInt(step.fields["index"])
      case Err(e) => Err(e)
      case Ok(_) =>
        match PyInt(step.fields["timestamp_sec"])
        case Err(e) => Err(e)
        case Ok(_) => Ok(Coerce(step, render))
  }

  /** The step loop from position `from` on: every step accepted gives the
      coerced steps in order; otherwise the first offender's error. */
  function ValidateSteps(steps: seq<Json>, from: nat, render: Json -> string): (r: Result<seq<Step>>)
    requires from <= |steps|
    decreases |steps| - from
    ensures r.Ok? <==> forall k :: from <= k < |steps| ==> StepAccepted(steps[k])
    ensures r.Ok? ==> |r.value| == |steps| - from
    ensures r.Ok? ==> forall i :: 0 <= i < |r.value| ==> r.value[i] == Coerce(steps[from + i], render)
    ensures r.Err? ==> !r.error.HttpError?
  {
    if from == |steps| then Ok([])
    else match CheckStep(steps[from], from + 1, render)
      case Err(e) => Err(e)
      case Ok(first) =>
        match ValidateSteps(steps, from + 1, render)
        case Err(e) => Err(e)
        case Ok(rest) =>
          var validated := [first] + rest;
          assert forall i :: 0 < i < |validated| ==> validated[i] == rest[i - 1];
          Ok(validated)
  }

  /** The step loop stops at the first step it rejects and reports that
      step's error, numbered from 1. */
  lemma {:induction false} FirstOffenderReported(steps: seq<Json>, from: nat, k: nat, render: Json -> string)
    requires from <= k < |steps|
    requires forall j :: from <= j < k ==> StepAccepted(steps[j])
    requires !StepAccepted(steps[k])
    ensures ValidateSteps(steps, from, render) == Err(CheckStep(steps[k], k + 1, render).error)
    decreases k - from
  {
    if from < k {
      FirstOffenderReported(steps, from + 1, k, render);
      assert CheckStep(steps[from], from + 1, render).Ok?;
      assert ValidateSteps(steps, from + 1, render).Err?;
    } else {
      assert CheckStep(steps[k], k + 1, render).Err?;
    }
  }

  /** `data.get("description", default)`: the description the declined test reads. */
  function DescriptionOr(fields: map<string, Json>, default: Json): Json {
    if "description" in fields then fields["description"] else default
  }

  /** The description mentions an error or the absence of a recipe, ignoring case. */
  predicate SignalsNoRecipe(description: string) {
    Contains(Lower(description), "error") || Contains(Lower(description), "no recipe")
  }

  /** The text of the AttributeError for `v.attribute`. */
  function NoAttribute(v: Json, attribute: string): string {
    "'" + TypeName(v) + "' object has no attribute '" + attribute + "'"
  }

  /** The AttributeError .lower() raises on None, in the pieces it is built from. */
  lemma NoAttributeLowerOnNonePieces()
    ensures NoAttribute(Null, "lower") == "'" + "NoneType" + "' object has no attribute '" + "lower" + "'"
  {
  }

  /** Once lower-cased, that text has no `p` followed by `i`. */
  lemma NoAttributeLowerOnNoneLacksPi()
    ensures LacksLoweredPair(NoAttribute(Null, "lower"), 'p', 'i')
  {
    var p1, p2, p3, p4, p5 := "'", "NoneType", "' object has no attribute '", "lower", "'";
    NoAttributeLowerOnNonePieces();
    assert LacksLoweredPair(p2, 'p', 'i');
    assert LacksLoweredPair(p3, 'p', 'i');
    LacksLoweredPairJoin(p1, p2, 'p', 'i');
    LacksLoweredPairJoin(p1 + p2, p3, 'p', 'i');
    LacksLoweredPairJoin(p1 + p2 + p3, p4, 'p', 'i');
    LacksLoweredPairJoin(p1 + p2 + p3 + p4, p5, 'p', 'i');
  }

  /** Once lower-cased, that text has no `g`. */
  lemma NoAttributeLowerOnNoneLacksG()
    ensures LacksLowered(NoAttribute(Null, "lower"), 'g')
  {
    var p1, p2, p3, p4, p5 := "'", "NoneType", "' object has no attribute '", "lower", "'";
    NoAttributeLowerOnNonePieces();
    assert LacksLowered(p2, 'g');
    assert LacksLowered(p3, 'g');
    LacksLoweredJoin(p1, p2, 'g');
    LacksLoweredJoin(p1 + p2, p3, 'g');
    LacksLoweredJoin(p1 + p2 + p3, p4, 'g');
    LacksLoweredJoin(p1 + p2 + p3 + p4, p5, 'g');
  }

  /** The declined test made when ingredients or steps is empty: the
      description (defaulted) must be a str for .lower(), and one that
      signals no recipe raises the 422 HTTPException. */
  function DeclineCheck(fields: map<string, Json>): (r: Result<()>)
    ensures r.Ok? <==> DescriptionOr(fields, Str(DefaultDescription)).Str?
                       && !SignalsNoRecipe(DescriptionOr(fields, Str(DefaultDescription)).s)
    ensures r.Err? && r.error.HttpError? ==>
              var description := DescriptionOr(fields, Str(DefaultDescription));
              description.Str? && r.error == HttpError(DeclinedStatus, DeclinedPrefix + description.s)
    ensures r.Err? && !r.error.HttpError? ==> r.error.OtherError?
    // a str that signals no recipe is declined with 422; a non-str fails in .lower()
    ensures var description := DescriptionOr(fields, Str(DefaultDescription));
            description.Str? && SignalsNoRecipe(description.s) ==>
              r == Err(HttpError(DeclinedStatus, DeclinedPrefix + description.s))
    ensures var description := DescriptionOr(fields, Str(DefaultDescription));
            !description.Str? ==> r == Err(OtherError(NoAttribute(description, "lower")))
  {
    var description := DescriptionOr(fields, Str(DefaultDescription));
    if !description.Str? then
      Err(OtherError(NoAttribute(description, "lower")))
    else if SignalsNoRecipe(description.s) then
      Err(HttpError(DeclinedStatus, DeclinedPrefix + description.s))
    else
      Ok(())
  }

  /** The response assembled once every step is accepted. */
  function Assemble(fields: map<string, Json>, ingredients: seq<Json>, steps: seq<Json>,
                    render: Json -> string): (r: Result<ExtractResponse>)
    requires "title" in fields
    ensures r.Ok? <==> forall k :: 0 <= k < |steps| ==> StepAccepted(steps[k])
    ensures r.Ok? ==> Assembled(r.value, fields, ingredients, steps, render)
    ensures r.Err? ==> !r.error.HttpError?
    // a failure is the step loop's, that is, the first offender's
    ensures r.Err? ==> r == Err(ValidateSteps(steps, 0, render).error)
  {
    match ValidateSteps(steps, 0, render)
    case Err(e) => Err(e)
    case Ok(validated) =>
      Ok(ExtractResponse(
        PyStr(fields["title"], render),
        DescriptionOr(fields, Null),
        seq(|ingredients|, k requires 0 <= k < |ingredients| => PyStr(ingredients[k], render)),
        validated))
  }

  /** `response` is what the handler builds from the dict's fields: title
      and each ingredient through str(), the description as given, and the
      coerced steps, all lists keeping their length and order. */
  ghost predicate Assembled(response: ExtractResponse, fields: map<string, Json>,
                            ingredients: seq<Json>, steps: seq<Json>, render: Json -> string)
    requires "title" in fields
  {
    && response.title == PyStr(fields["title"], render)
    && response.description == DescriptionOr(fields, Null)
    && |response.ingredients| == |ingredients|
    && (forall k :: 0 <= k < |ingredients| ==> response.ingredients[k] == PyStr(ingredients[k], render))
    && |response.steps| == |steps|
    && (forall k :: 0 <= k < |steps| ==> StepAccepted(steps[k]) && response.steps[k] == Coerce(steps[k], render))
  }

  /** The validation and assembly of lines 172-211 applied to the parsed value. */
  function Validate(data: Json, render: Json -> string): (r: Result<ExtractResponse>)
    // the structural checks run in order and the first violation is reported
    ensures data.Obj? && "title" !in data.fields ==> r == Err(ValueError(MissingTitle))
    ensures (data.Obj? && "title" in data.fields && !HasList(data, "ingredients"))
            ==> r == Err(ValueError(InvalidIngredients))
    ensures (data.Obj? && "title" in data.fields && HasList(data, "ingredients") && !HasList(data, "steps"))
            ==> r == Err(ValueError(InvalidSteps))
    // a response exists only for a dict that passed every check
    ensures r.Ok? ==> && data.Obj? && "title" in data.fields
                      && HasList(data, "ingredients") && HasList(data, "steps")
                      && Assembled(r.value, data.fields, data.fields["ingredients"].items,
                                   data.fields["steps"].items, render)
    // the only HTTPException is the declined one, and only for an empty list
    ensures r.Err? && r.error.HttpError? ==>
              && data.Obj? && HasList(data, "ingredients") && HasList(data, "steps")
              && (|data.fields["ingredients"].items| == 0 || |data.fields["steps"].items| == 0)
              && r.error.status == DeclinedStatus
  {
    match In("title", data)
    case Err(e) => Err(e)
    case Ok(hasTitle) =>
      if !hasTitle then Err(ValueError(MissingTitle))
      else match ListField(data, "ingredients", InvalidIngredients)
        case Err(e) => Err(e)
        case Ok(ingredients) =>
          match ListField(data, "steps", InvalidSteps)
          case Err(e) => Err(e)
          case Ok(steps) =>
            var declined := if |ingredients| == 0 || |steps| == 0 then DeclineCheck(data.fields) else Ok(());
            match declined
            case Err(e) => Err(e)
            case Ok(_) => Assemble(data.fields, ingredients, steps, render)
  }

  /** A dict that passes the structural and declined checks is rejected
      with the error of its first offending step, numbered from 1. */
  lemma FirstBadStepRejects(fields: map<string, Json>, k: nat, render: Json -> string)
    requires "title" in fields
    requires "ingredients" in fields && fields["ingredients"].Arr?
    requires "steps" in fields && fields["steps"].Arr?
    requires |fields["ingredients"].items| > 0 || DeclineCheck(fields).Ok?
    requires k < |fields["steps"].items|
    requires forall j :: 0 <= j < k ==> StepAccepted(fields["steps"].items[j])
    requires !StepAccepted(fields["steps"].items[k])
    ensures Validate(Obj(fields), render)
            == Err(CheckStep(fields["steps"].items[k], k + 1, render).error)
  {
    var steps := fields["steps"].items;
    FirstOffenderReported(steps, 0, k, render);
    assert In("title", Obj(fields)) == Ok(true);
  }

  /** What the handler accepts, stated without reference to its checks. */
  ghost predicate Acceptable(data: Json) {
    && data.Obj?
    && "title" in data.fields
    && HasList(data, "ingredients")
    && HasList(data, "steps")
    && (|data.fields["ingredients"].items| == 0 || |data.fields["steps"].items| == 0 ==>
          var description := DescriptionOr(data.fields, Str(DefaultDescription));
          description.Str? && !SignalsNoRecipe(description.s))
    && forall k :: 0 <= k < |data.fields["steps"].items| ==> StepAccepted(data.fields["steps"].items[k])
  }

  /** Validation succeeds exactly on the acceptable values. */
  lemma ValidateAcceptsExactly(data: Json, render: Json -> string)
    ensures Validate(data, render).Ok? <==> Acceptable(data)
  {
    if Acceptable(data) {
      assert In("title", data) == Ok(true);
    }
  }

  /** The declined test runs before any step is examined: with an empty
      ingredient or step list and a description that signals no recipe,
      the result is the 422 whatever the steps hold. */
  lemma DeclinedBeforeStepChecks(fields: map<string, Json>, render: Json -> string)
    requires "title" in fields
    requires "ingredients" in fields && fields["ingredients"].Arr?
    requires "steps" in fields && fields["steps"].Arr?
    requires |fields["ingredients"].items| == 0 || |fields["steps"].items| == 0
    requires var d := DescriptionOr(fields, Str(DefaultDescription)); d.Str? && SignalsNoRecipe(d.s)
    ensures Validate(Obj(fields), render)
            == Err(HttpError(DeclinedStatus, DeclinedPrefix + DescriptionOr(fields, Str(DefaultDescription)).s))
  {
  }

  /** The default description says "No recipe". */
  lemma DefaultDescriptionSignals()
    ensures SignalsNoRecipe(DefaultDescription)
  {
    var lowered := Lower(DefaultDescription);
    forall k | 0 <= k < 9 ensures lowered[k] == "no recipe"[k] {
      assert lowered[k] == LowerChar(DefaultDescription[k]);
    }
    assert lowered[..9] == "no recipe";
    assert OccursAt(lowered, "no recipe", 0);
  }

  /** Without a description an empty recipe is always declined, because
      the default text says "No recipe". */
  lemma MissingDescriptionDeclines(fields: map<string, Json>, render: Json -> string)
    requires "title" in fields
    requires "ingredients" in fields && fields["ingredients"].Arr?
    requires "steps" in fields && fields["steps"].Arr?
    requires |fields["ingredients"].items| == 0 || |fields["steps"].items| == 0
    requires "description" !in fields
    ensures Validate(Obj(fields), render) == Err(HttpError(DeclinedStatus, DeclinedPrefix + DefaultDescription))
  {
    DefaultDescriptionSignals();
    DeclinedBeforeStepChecks(fields, render);
  }

  /** Empty lists are accepted when the description does not signal a
      missing recipe: the response then has an empty list too. */
  lemma EmptyListsAccepted(title: Json, description: string, steps: seq<Json>, render: Json -> string)
    requires !SignalsNoRecipe(description)
    requires forall k :: 0 <= k < |steps| ==> StepAccepted(steps[k])
    ensures var data := Obj(map["title" := title, "description" := Str(description),
                                "ingredients" := Arr([]), "steps" := Arr(steps)]);
            Validate(data, render).Ok? && Validate(data, render).value.ingredients == []
  {
    var data := Obj(map["title" := title, "description" := Str(description),
                        "ingredients" := Arr([]), "steps" := Arr(steps)]);
    ValidateAcceptsExactly(data, render);
  }

  /** The JSON the service would serialise a response to. */
  function StepToJson(s: Step): Json {
    Obj(map["index" := Int(s.index), "text" := Str(s.text), "timestamp_sec" := Int(s.timestampSec)])
  }

  function ToJson(r: ExtractResponse): Json {
    Obj(map[
      "title" := Str(r.title),
      "description" := r.description,
      "ingredients" := Arr(seq(|r.ingredients|, k requires 0 <= k < |r.ingredients| => Str(r.ingredients[k]))),
      "steps" := Arr(seq(|r.steps|, k requires 0 <= k < |r.steps| => StepToJson(r.steps[k])))])
  }

  /** A response the handler can give back unchanged once serialised:
      either both lists are non-empty, or the description is a str that
      does not signal a missing recipe. */
  predicate Reproducible(r: ExtractResponse) {
    (|r.ingredients| > 0 && |r.steps| > 0) || (r.description.Str? && !SignalsNoRecipe(r.description.s))
  }

  /** Validation accepts a serialised response and returns it unchanged. */
  lemma ValidateToJsonRoundTrip(r: ExtractResponse, render: Json -> string)
    requires Reproducible(r)
    ensures Validate(ToJson(r), render) == Ok(r)
  {
    var data := ToJson(r);
    var steps := data.fields["steps"].items;
    forall k | 0 <= k < |steps|
      ensures StepAccepted(steps[k]) && Coerce(steps[k], render) == r.steps[k]
    {
      assert steps[k] == StepToJson(r.steps[k]);
    }
    ValidateAcceptsExactly(data, render);
    var v := Validate(data, render).value;
    assert v.steps == r.steps;
    assert v.ingredients == r.ingredients;
  }
}
