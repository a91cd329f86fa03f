# Recipe extraction handler, modelled in Dafny

This project models the `/extract` endpoint of the recipe service's AI
orchestrator (`extract_recipe` in `ai-orchestrator/main.py`). The endpoint
hands a video transcript to a generative model and turns the model's free
text into a validated recipe. The model covers the endpoint's logic:

- **Token gate** (`Service.HandleExtract`). Requests with the wrong
  service token get 401 and never reach the model.
- **First model call** (`Cascade.Generate`), at temperature 0.3. If it
  fails, the failure is rewrapped as a `ValueError`.
- **Fence stripper** (`Sanitize.StripFences`). It strips whitespace,
  removes one leading ```` ```json ```` or ```` ``` ````, removes one
  trailing ```` ``` ````, then strips again.
- **Brace extractor** (`Sanitize.BraceCandidate`). This is
  `re.search(r'\{.*\}', content, re.DOTALL)` applied to the raw reply: the
  span from the first `{` to the last `}`.
- **Recovery cascade** (`Cascade.Recover`). It tries three parses in turn:
  1. strict parse of the fence-stripped text;
  2. parse of the brace candidate;
  3. at most one repair call at temperature 0.1, whose reply is only
     trimmed before it is parsed.
  Every decode failure quotes the decode error of the strict parse. Any
  other exception from the first two parses escapes unchanged.
- **Recipe validator** (`Schema.Validate`), with these checks in order:
  1. title present;
  2. ingredients is a list;
  3. steps is a list;
  4. the "declined" 422 for an empty recipe whose description signals
     that no recipe was found;
  5. the step loop, with 1-indexed error messages and `int()`/`str()`
     coercions;
  6. assembly of the response.
- **Error classifier** (`Service.Classify`):
  - `ValueError` becomes 422;
  - `HTTPException` passes through unchanged;
  - any other exception becomes 503 if its lower-cased text contains
    "api" or "gemini", and 500 otherwise.

The model is an oracle, `Cascade.Model`. It holds the replies it will give,
in call order, and a log of the calls made so far. `json.loads` is a
parameter of type `string -> Decoded`. It returns a value, a decode
error with its text, or another exception (a plain `ValueError` or
anything else) with its text. The Python builtins the handler applies to
parsed values are written out with Python's semantics: `in`, subscripting,
`str()` and `int()`. The exception is `str()` of floats, lists and dicts,
which goes through a `render` parameter.

The model also states some behaviour of the code that is easy to miss:

- **Fence stripping is not idempotent.** For the reply ```` ``` ```` NL
  ```` ```x``` ````, the first pass yields ```` ```x ```` and a second pass
  would yield `x`. `Sanitize.StripFencesNotIdempotent` proves this.
- **A failed first call gives 422, not 503.** main.py:133 rewraps any
  exception from the first call as a `ValueError`, and main.py:213-217
  answer every `ValueError` with 422. A failed repair call ends the
  cascade with a `ValueError` as well (main.py:166-167).
- **`json.loads` errors other than JSONDecodeError skip recovery.** A
  plain `ValueError` (an integer literal over the digit limit) or a
  `RecursionError` escapes the `except json.JSONDecodeError` clauses at
  main.py:148 and main.py:155. The brace candidate and the repair call are
  then skipped, and the exception is classified as it stands.
- **Empty lists can be accepted.** An empty ingredient or step list is
  accepted when the description does not signal a missing recipe
  (main.py:185-191 raise only in that case).
- **A null description gives 500.** If the recipe is empty and the
  description is JSON `null`, `.lower()` raises an `AttributeError` at
  main.py:187. Its text names neither the API nor Gemini, so main.py:227-230
  answer 500.
- **Ingredients are plain strings.** main.py:209 applies `str()` to each
  ingredient. No per-ingredient fields are checked.
- **`int()` skips less whitespace than `strip()`.** It keeps the ASCII
  separators U+001C..U+001F, so a step index written as U+001C then `5`
  is rejected at main.py:200 (`Json.SeparatorRejectedByInt`).

## Model

| member | source | states |
|---|---|---|
| Text.TrimStartDropsSpace | ai-orchestrator/main.py:138 | The left half of `strip()` removes a leading run of whitespace and nothing else: the result is a suffix of the input, everything removed is whitespace, and the result does not start with whitespace |
| Text.TrimEndDropsSpace | ai-orchestrator/main.py:138 | The right half of `strip()` removes a trailing run of whitespace and nothing else: the result is a prefix of the input, everything removed is whitespace, and the result does not end with whitespace |
| Text.Strip | ai-orchestrator/main.py:138 | `strip()` leaves text with no whitespace at either end |
| Text.StripMargins | ai-orchestrator/main.py:138 | `strip()` returns a contiguous piece of its input, and only whitespace lies outside that piece |
| Text.TrimBoth | ai-orchestrator/main.py:138 | Trimming both ends leaves no blank at either end, for the blanks of `strip()` and those of `int()` alike |
| Text.TrimMargins | ai-orchestrator/main.py:138 | Trimming returns a contiguous piece of its input, and only blanks lie outside that piece |
| Text.IntStrip | ai-orchestrator/main.py:200 | The text `int()` reads has no blank `int()` skips at either end |
| Text.StripUnique | ai-orchestrator/main.py:145 | Stripping whitespace-only margins around a trimmed text gives back exactly that text |
| Text.StripIdempotent | ai-orchestrator/main.py:145 | Stripping twice is the same as stripping once, so the second strip changes nothing when no fence was removed |
| Text.AbsentLetter | ai-orchestrator/main.py:221-222 | If the lower-cased text lacks a letter of the needle, the needle does not occur in it |
| Text.Lower | ai-orchestrator/main.py:187 | `.lower()` keeps the length, maps each ASCII upper-case letter to its lower case, leaves every other character as it is, and leaves no ASCII upper-case letter |
| Text.ContainsIsSplit | ai-orchestrator/main.py:222 | `needle in s` holds exactly when `s` splits into a prefix, the needle and a suffix |
| Text.IntToDecimal | ai-orchestrator/main.py:201 | `str()` of an int is a minus sign exactly for a negative number, followed by decimal digits only |
| Text.DecimalRoundTrip | ai-orchestrator/main.py:200-202 | The decimal digits written for a natural number read back as that number |
| Json.In | ai-orchestrator/main.py:172 | Python's `in` with a string key: dict membership, list membership or substring test. Exactly for other types it is a TypeError (never a ValueError), "argument of type '…' is not iterable", naming the type |
| Json.Subscript | ai-orchestrator/main.py:207 | Subscripting succeeds exactly for a dict holding the key, and then yields that key's value. Every failure is a KeyError or TypeError, never a ValueError; a missing key gives the KeyError whose text is the quoted key |
| Json.PyStr | ai-orchestrator/main.py:201 | `str()` returns a str value unchanged, writes an int in decimal, and spells None and the booleans as `None`, `True` and `False` |
| Json.IntOfText | ai-orchestrator/main.py:200 | `int()` of a string succeeds exactly for a signed, underscore-grouped decimal literal of at most 4300 digits, once the blanks `int()` skips are removed from both ends. It then gives the literal's value, and otherwise raises a ValueError |
| Json.Truncate | ai-orchestrator/main.py:202 | `int()` of a float truncates toward zero |
| Json.SeparatorRejectedByInt | ai-orchestrator/main.py:200 | `strip()` removes a leading U+001C, but `int()` keeps it and so rejects U+001C then `5` |
| Json.Escaped | ai-orchestrator/main.py:147-155 | An exception `json.loads` raises other than JSONDecodeError keeps its text, stays a ValueError exactly when it is one, and is never an HTTPException |
| Json.PyInt | ai-orchestrator/main.py:200-202 | `int()` keeps an int, reads a str as `IntOfText` does, and rejects None, lists and dicts with a non-ValueError; it never raises an HTTPException |
| Json.IntTextRoundTrip | ai-orchestrator/main.py:200-201 | `int(str(n)) == n` for every int within the 4300-digit limit |
| Sanitize.Unopen | ai-orchestrator/main.py:139-142 | Removes exactly one opening fence: ```` ```json ```` when the text starts with it, else ```` ``` ```` when it starts with that, else nothing |
| Sanitize.Unclose | ai-orchestrator/main.py:143-144 | Removes exactly one closing ```` ``` ```` when the text ends with it, and nothing otherwise |
| Sanitize.StripFences | ai-orchestrator/main.py:138-145 | The sanitised text has no whitespace at either end |
| Sanitize.StripFencesIsSlice | ai-orchestrator/main.py:138-145 | Fence stripping never alters interior content: its result is a contiguous piece of the reply |
| Sanitize.UnfencedIsOnlyTrimmed | ai-orchestrator/main.py:138-145 | A reply that neither starts nor ends with a fence is only trimmed |
| Sanitize.JsonFencedBody | ai-orchestrator/main.py:139-145 | A reply wrapped in a ```` ```json ```` fence (with any surrounding whitespace) yields its trimmed body |
| Sanitize.BareFencedBody | ai-orchestrator/main.py:139-145 | A reply in a bare fence yields its trimmed body, unless the body begins with `json`, which the tagged test removes as well |
| Sanitize.StripFencesNotIdempotent | ai-orchestrator/main.py:138-145 | A second pass can remove a fence that the first pass exposed |
| Sanitize.FirstIndexOf | ai-orchestrator/main.py:151 | Gives the position of the first occurrence of a character, with none before it, or None when the character is absent |
| Sanitize.LastIndexOf | ai-orchestrator/main.py:151 | Gives the position of the last occurrence of a character, with none after it, or None when the character is absent |
| Sanitize.BraceCandidate | ai-orchestrator/main.py:151-152 | A match starts with `{` and ends with `}` |
| Sanitize.BraceCandidateSpan | ai-orchestrator/main.py:151-152 | A match exists exactly when some `{` comes before some `}`, and it runs from a `{` with none before it to a `}` with none after it |
| Sanitize.BraceCandidateIsRegexSearch | ai-orchestrator/main.py:151 | The candidate is the leftmost-longest match of `\{.*\}` under DOTALL, and there is none when no `{` comes before a `}` |
| Sanitize.BraceCandidateInProse | ai-orchestrator/main.py:151-154 | For prose with no `{` before a JSON object and no `}` after it, the candidate is exactly that object |
| Cascade.Generate | ai-orchestrator/main.py:125-131 | A model call logs the call and returns the next scripted reply, or fails when there is none |
| Cascade.Recover | ai-orchestrator/main.py:136-169 | Order of attempts: strict parse of the fence-stripped text, then the brace candidate of the raw text. Makes at most one call, the repair call, and exactly when both parses fail with a JSONDecodeError. The repair reply is only trimmed before parsing. A decode failure is a ValueError quoting the strict-parse error; any other exception from the first two parses escapes as it is, with no further attempt |
| Schema.ListField | ai-orchestrator/main.py:174-177 | Succeeds exactly when the key holds a list, and then yields that list. For a dict, the failure is the ValueError with the given message |
| Schema.CheckStep | ai-orchestrator/main.py:193-204 | A step passes exactly when it is a dict with the three keys and int() accepts its index and timestamp. A non-dict fails as "Step n is not an object" and a missing key as "Step n missing required fields", n counted from 1. With the keys present, the failure is int()'s own exception, for the index first and then for the timestamp |
| Schema.ValidateSteps | ai-orchestrator/main.py:193-204 | The loop succeeds exactly when every step is accepted. It then gives the coerced steps, same length and order |
| Schema.FirstOffenderReported | ai-orchestrator/main.py:193-197 | The loop reports the error of the first rejected step, numbered from 1 |
| Schema.FirstBadStepRejects | ai-orchestrator/main.py:172-204 | A dict that passes the title, list and declined checks is rejected with the error of its first offending step, numbered from 1 |
| Schema.DeclineCheck | ai-orchestrator/main.py:185-191 | The empty-recipe check passes exactly when the (defaulted) description is a str that mentions neither "error" nor "no recipe", ignoring case. A signalling str gives exactly the 422 "Recipe extraction failed: " error. A non-str gives exactly the AttributeError of `.lower()` |
| Schema.Assemble | ai-orchestrator/main.py:206-211 | The response is built exactly when every step is accepted. It then holds the title and every ingredient through str(), the description as given, and the coerced steps. Otherwise the failure is the step loop's, which is the first offender's |
| Schema.Validate | ai-orchestrator/main.py:172-211 | The structural checks run in order and the first violation is reported. A response exists only for a dict that passed every check and holds what `Assemble` builds. The only HTTPException is the declined 422, raised only for an empty list |
| Schema.ValidateAcceptsExactly | ai-orchestrator/main.py:172-204 | Validation succeeds exactly on the values the `Acceptable` predicate describes independently of the checks |
| Schema.DeclinedBeforeStepChecks | ai-orchestrator/main.py:184-193 | For an empty recipe with a signalling description, the result is the 422 whatever the steps hold |
| Schema.DefaultDescriptionSignals | ai-orchestrator/main.py:186-187 | The default description, lower-cased, contains "no recipe" |
| Schema.MissingDescriptionDeclines | ai-orchestrator/main.py:186-187 | An empty recipe with no description is declined with the 422 quoting the default text, because that text says "No recipe" |
| Schema.EmptyListsAccepted | ai-orchestrator/main.py:184-211 | Empty lists are accepted when the description does not signal a missing recipe |
| Schema.ValidateToJsonRoundTrip | ai-orchestrator/main.py:172-211 | Validating a serialised response gives back that response |
| Service.Classify | ai-orchestrator/main.py:213-230 | ValueError gives 422 with "Invalid response format: ". HTTPException passes through. Any other exception gives 503 with "Gemini API error: " plus its text exactly when its lower-cased text contains "api" or "gemini", and otherwise 500 with "Internal error: " plus its text |
| Service.NoneAttributeErrorIsInternal | ai-orchestrator/main.py:220-230 | The AttributeError from `None.lower()` mentions neither the API nor Gemini, so it becomes 500 |
| Service.Parse | ai-orchestrator/main.py:124-169 | The model is called once at 0.3, then at most once more at 0.1. No failure up to validation is an HTTPException |
| Service.RepairCallExactlyWhenNeeded | ai-orchestrator/main.py:148-165 | A second call is made exactly when both the strict parse and the candidate parse of the first reply fail |
| Service.ParseRepaired | ai-orchestrator/main.py:155-167 | After the repair call, the trimmed repair reply decides: its value if it parses, otherwise the after-repair error quoting the strict-parse error |
| Service.Run | ai-orchestrator/main.py:124-211 | The only HTTPException reaching the handler is the declined 422. A response is the validation of the value parsing produced |
| Service.Extract | ai-orchestrator/main.py:103-230 | Calls: one or two, the second being the repair call exactly when it is needed. Every failure has status 422, 503 or 500. A success is the validation of the value parsing produced |
| Service.HandleExtract | ai-orchestrator/main.py:34-37 | A configured, non-empty token that the header does not match gives 401 with no model call. Otherwise the handler runs |
| Service.ExtractOfParseFailure | ai-orchestrator/main.py:213-230 | A parse failure is answered by classifying that failure, after the calls parsing made |
| Service.ExtractOfParsed | ai-orchestrator/main.py:171-211 | A parsed value that validation accepts is the response, after the calls parsing made |
| Service.ExtractOfRejected | ai-orchestrator/main.py:171-230 | A parsed value that validation rejects is answered by classifying that rejection |
| Service.EscapingLoadsErrorSkipsRecovery | ai-orchestrator/main.py:147-148 | If the strict parse raises anything but a JSONDecodeError, there is no brace candidate and no repair call: the exception is classified as it stands, after one call |
| Service.FirstCallFailureIs422 | ai-orchestrator/main.py:124-133 | A failed first call is answered with 422 carrying "Invalid response format: Gemini API error: …", after one call |
| Service.WellFormedReplyPassesThrough | ai-orchestrator/main.py:136-211 | A reply whose fence-stripped text parses to a serialised response is returned unchanged, after one call |
| Service.ProseWrappedReplyNeedsNoRepair | ai-orchestrator/main.py:148-154 | A JSON object embedded in prose is parsed through the brace candidate, with no repair call |
| Service.NoCandidateNoRepair | ai-orchestrator/main.py:151-169 | With no `{` before a `}`, a failed strict parse ends in 422 "Invalid JSON response: …", with no repair call |
| Service.RepairExhausted | ai-orchestrator/main.py:155-167 | A missing, failed or unparsable repair reply ends in 422 quoting the first strict-parse error, after exactly two calls |
| Service.RepairReplyOnlyTrimmed | ai-orchestrator/main.py:158-165 | A repair reply that parses after strip() alone is validated and returned, after two calls |
| Service.NullDescriptionOnEmptyRecipeIs500 | ai-orchestrator/main.py:185-187 | For an empty recipe whose description is null, `.lower()` raises an AttributeError, answered with 500 after one call |

## Left out

- The FastAPI app, CORS, the `/health` route and route decorators (main.py:9-19, 97-99). These are framework wiring with no logic of their own.
- The environment configuration and the startup check for the API key (main.py:21-30). Configuration is an input here: the configured token is a parameter of `Service.HandleExtract`.
- The prompt text (main.py:60-94, 108-122, 157). Prompts only affect what the model replies, and the replies are a parameter.
- The Gemini SDK. Every call is an oracle step. Any exception from `generate_content` or `.text` is a `Failed` reply, and a call beyond the scripted replies fails with a fixed message.
- `json.loads` itself. It is a parameter, so the model makes no claim about which texts parse, or about which of them raise exceptions other than JSONDecodeError.
- Pydantic's own field validation of `Step` and `ExtractResponse`. The coerced steps, title and ingredients already have the declared types. The description is passed through as parsed, and that has a cost. `ExtractResponse.description` is `Optional[str]` (main.py:55). For an accepted recipe whose description is neither a str nor null, main.py:206 fails validation. Under Pydantic v2 this raises a ValidationError, which is a ValueError and so gives 422. Pydantic v1 would coerce a number to str instead. The model returns the raw value. So `Schema.ValidateToJsonRoundTrip` and `Service.WellFormedReplyPassesThrough` also cover responses the program does not return as such.
- Json.PyStr: `str()` of floats, lists and dicts is supplied by the `render` parameter. Python's repr rules and dict ordering are not modelled.
- Json.IntOfText: non-ASCII decimal digits, which `int()` also accepts, are not modelled. The repr of the text in the error message is approximated by single quotes.
- Json.PyInt: `int()` of an infinity raises OverflowError. It is modelled as a non-ValueError exception, which is how the handler treats it.
- Text.Lower: lower-cases ASCII letters only. Python's `.lower()` differs in two ways: it turns U+0130 into `i` followed by U+0307, and U+212A into `k`. Every other character keeps or gets a non-ASCII lower case. For the description test at main.py:187 this changes nothing: no needle contains `k`, and the `i` of "no recipe" is followed by `p`, never U+0307. At main.py:221-222 the classified texts are built from ASCII constants and type names, with one exception: the text of an exception `json.loads` raises, which is a parameter. If that text ends a needle with U+0130 (as in "APİ"), Python finds "api" and the model does not.
- Text.IntToDecimal: `str()` of an int is not subject to the 4300-digit limit here. The round trip therefore requires the limit instead.
- Sanitize.BraceCandidate: its own contract states only the shape of a match. The match itself is stated by `Sanitize.BraceCandidateSpan` and `Sanitize.BraceCandidateIsRegexSearch`.
- Service.Extract: the model does not prove that 503 can never arise on this path in general. It proves this for the cases above, including the null description.
