/** The two ways the handler recovers a JSON payload from the model's text:
    stripping one markdown code fence, and the greedy regular expression
    `\{.*\}` (DOTALL) applied to the raw reply. */
module Sanitize {
  import opened Text
  import opened Json

  const Fence := "```"
  const JsonFence := "```json"

  /** Drops one leading ```json, or else one leading ```. */
  function Unopen(t: string): (r: string)
    ensures |r| <= |t| && r == t[|t| - |r|..]
    // the tagged fence is tried first; text without a fence is kept whole
    ensures StartsWith(t, JsonFence) ==> t == JsonFence + r
    ensures StartsWith(t, Fence) && !StartsWith(t, JsonFence) ==> t == Fence + r
    ensures !StartsWith(t, Fence) ==> r == t
  {
    if StartsWith(t, JsonFence) then
      JsonFenceIsFence(t);
      assert t == t[..|JsonFence|] + t[|JsonFence|..];
      t[|JsonFence|..]
    else if StartsWith(t, Fence) then
      assert t == t[..|Fence|] + t[|Fence|..];
      t[|Fence|..]
    else t
  }

  /** Drops one trailing ```. */
  function Unclose(t: string): (r: string)
    ensures |r| <= |t| && r == t[..|r|]
    ensures EndsWith(t, Fence) ==> t == r + Fence
    ensures !EndsWith(t, Fence) ==> r == t
  {
    if EndsWith(t, Fence) then
      assert t == t[..|t| - |Fence|] + t[|t| - |Fence|..];
      t[..|t| - |Fence|]
    else t
  }

  /** The fence stripping that precedes the strict parse: trim, drop one
      leading ```json or ``` (the tagged form is tried first), drop one
      trailing ```, trim again. */
  function StripFences(content: string): (r: string)
    ensures Trimmed(r)
  {
    Strip(Unclose(Unopen(Strip(content))))
  }

  lemma JsonFenceIsFence(s: string)
    requires StartsWith(s, JsonFence)
    ensures StartsWith(s, Fence)
  {
    assert s[..3] == s[..7][..3];
  }

  /** A reply that neither opens nor closes with a fence is only trimmed. */
  lemma UnfencedIsOnlyTrimmed(content: string)
    requires !StartsWith(Strip(content), Fence) && !EndsWith(Strip(content), Fence)
    ensures StripFences(content) == Strip(content)
  {
    var t := Strip(content);
    if StartsWith(t, JsonFence) {
      JsonFenceIsFence(t);
    }
    assert Unclose(Unopen(t)) == t;
    StripIdempotent(content);
  }

  lemma UnopenIsSlice(t: string)
    ensures IsSliceOf(Unopen(t), t)
  {
    var r := Unopen(t);
    assert r == t[|t| - |r|..|t|];
  }

  lemma UncloseIsSlice(t: string)
    ensures IsSliceOf(Unclose(t), t)
  {
    var r := Unclose(t);
    assert r == t[0..|r|];
  }

  /** Fence stripping never invents text: its result is a contiguous piece
      of the reply. */
  lemma StripFencesIsSlice(content: string)
    ensures IsSliceOf(StripFences(content), content)
  {
    var trimmed := Strip(content);
    var unopened := Unopen(trimmed);
    var unclosed := Unclose(unopened);
    StripIsSlice(content);
    UnopenIsSlice(trimmed);
    UncloseIsSlice(unopened);
    StripIsSlice(unclosed);
    SliceOfSlice(unclosed, unopened, trimmed);
    SliceOfSlice(unclosed, trimmed, content);
    SliceOfSlice(StripFences(content), unclosed, content);
  }

  lemma UncloseClosed(body: string)
    ensures Unclose(body + Fence) == body
  {
    assert EndsWith(body + Fence, Fence);
    assert (body + Fence)[..|body|] == body;
  }

  /** A fenced reply is already trimmed, so the first strip leaves it whole. */
  lemma StripFenced(before: string, opening: string, body: string, after: string)
    requires AllSpace(before) && AllSpace(after)
    requires opening == Fence || opening == JsonFence
    ensures Strip(before + opening + body + Fence + after) == opening + body + Fence
  {
    var inner := opening + body + Fence;
    assert inner[0] == '`' && inner[|inner| - 1] == '`';
    assert before + opening + body + Fence + after == before + inner + after;
    StripUnique(before, inner, after);
  }

  lemma UnopenJsonFenced(body: string)
    ensures Unopen(JsonFence + body + Fence) == body + Fence
  {
    var inner := JsonFence + body + Fence;
    assert inner[..7] == JsonFence;
    assert inner[7..] == body + Fence;
  }

  lemma UnopenBareFenced(body: string)
    ensures !StartsWith(body, "json") ==> Unopen(Fence + body + Fence) == body + Fence
    ensures StartsWith(body, "json") ==> Unopen(Fence + body + Fence) == body[4..] + Fence
  {
    var inner := Fence + body + Fence;
    if StartsWith(body, "json") {
      assert inner[..7] == Fence + body[..4];
      assert inner[7..] == body[4..] + Fence;
    } else {
      if |body| >= 4 {
        assert inner[3..7] == body[..4];
      } else if |inner| >= 7 {
        assert inner[3 + |body|] == '`' != JsonFence[3 + |body|];
      }
      assert inner[..3] == Fence;
      assert inner[3..] == body + Fence;
    }
  }

  /** A reply wrapped as ```json ... ``` (with any surrounding whitespace)
      yields exactly its trimmed body. */
  lemma JsonFencedBody(before: string, body: string, after: string)
    requires AllSpace(before) && AllSpace(after)
    ensures StripFences(before + JsonFence + body + Fence + after) == Strip(body)
  {
    StripFenced(before, JsonFence, body, after);
    UnopenJsonFenced(body);
    UncloseClosed(body);
  }

  /** A reply wrapped in a bare fence yields its trimmed body, unless the
      body itself begins with `json`, which the tagged prefix test claims. */
  lemma BareFencedBody(before: string, body: string, after: string)
    requires AllSpace(before) && AllSpace(after)
    ensures !StartsWith(body, "json") ==>
              StripFences(before + Fence + body + Fence + after) == Strip(body)
    ensures StartsWith(body, "json") ==>
              StripFences(before + Fence + body + Fence + after) == Strip(body[4..])
  {
    StripFenced(before, Fence, body, after);
    UnopenBareFenced(body);
    if StartsWith(body, "json") {
      UncloseClosed(body[4..]);
    } else {
      UncloseClosed(body);
    }
  }

  lemma StripOfTrimmed(s: string)
    requires Trimmed(s)
    ensures Strip(s) == s
  {
    StripUnique([], s, []);
    assert [] + s + [] == s;
  }

  lemma OpenOnly(rest: string)
    requires |rest| > 0 && !IsSpace(rest[|rest| - 1]) && !EndsWith(rest, Fence)
    requires !StartsWith(rest, "json") && Trimmed(rest)
    ensures StripFences(Fence + rest) == rest
  {
    var t := Fence + rest;
    assert t[|t| - 1] == rest[|rest| - 1];
    StripOfTrimmed(t);
    assert !StartsWith(t, JsonFence) by {
      if |rest| >= 4 {
        assert t[3..7] == rest[..4];
      }
    }
    assert t[..3] == Fence;
    assert Unopen(t) == rest;
    StripOfTrimmed(rest);
  }

  lemma ExposedFenceShape()
    ensures var body := "\n" + Fence + "x";
            && !StartsWith(body, "json")
            && [] + Fence + body + Fence + [] == Fence + "\n" + Fence + "x" + Fence
            && Strip(body) == Fence + "x"
  {
    var body := "\n" + Fence + "x";
    assert body[0] == '\n';
    assert AllSpace("\n");
    StripUnique("\n", Fence + "x", []);
    assert "\n" + (Fence + "x") + [] == body;
  }

  /** Fence stripping is not idempotent: for the reply ``` NL ```x``` (NL a
      line break) a second pass removes a fence the first pass exposed. */
  lemma StripFencesNotIdempotent()
    ensures var reply := Fence + "\n" + Fence + "x" + Fence;
            StripFences(reply) == Fence + "x" && StripFences(StripFences(reply)) == "x"
  {
    ExposedFenceShape();
    BareFencedBody([], "\n" + Fence + "x", []);
    OpenOnly("x");
  }

  /** The position of the first `c` in `s`, if any. */
  function FirstIndexOf(s: string, c: char): (r: Option<nat>)
    ensures r.Some? ==> r.value < |s| && s[r.value] == c
    ensures r.Some? ==> forall k :: 0 <= k < r.value ==> s[k] != c
    ensures r.None? ==> forall k :: 0 <= k < |s| ==> s[k] != c
  {
    if |s| == 0 then None
    else if s[0] == c then Some(0)
    else match FirstIndexOf(s[1..], c)
      case None => None
      case Some(i) => Some(i + 1)
  }

  /** The position of the last `c` in `s`, if any. */
  function LastIndexOf(s: string, c: char): (r: Option<nat>)
    ensures r.Some? ==> r.value < |s| && s[r.value] == c
    ensures r.Some? ==> forall k :: r.value < k < |s| ==> s[k] != c
    ensures r.None? ==> forall k :: 0 <= k < |s| ==> s[k] != c
  {
    if |s| == 0 then None
    else if s[|s| - 1] == c then Some(|s| - 1)
    else LastIndexOf(s[..|s| - 1], c)
  }

  /** A `{` at `i` and a `}` at `j` after it: a span `\{.*\}` matches. */
  predicate BraceSpan(s: string, i: int, j: int) {
    0 <= i < j < |s| && s[i] == '{' && s[j] == '}'
  }

  /** What re.search(r'\{.*\}', s, re.DOTALL) returns: the span from the
      first `{` to the last `}`, present only when that `}` follows that `{`. */
  function BraceCandidate(s: string): (r: Option<string>)
    ensures r.Some? ==> |r.value| >= 2 && r.value[0] == '{' && r.value[|r.value| - 1] == '}'
  {
    match (FirstIndexOf(s, '{'), LastIndexOf(s, '}'))
    case (Some(i), Some(j)) =>
      if i < j then Some(s[i..j + 1]) else None
    case _ => None
  }

  /** The candidate is present exactly when some `{` precedes some `}`, and
      it runs from a `{` with none before it to a `}` with none after it. */
  lemma BraceCandidateSpan(s: string)
    ensures BraceCandidate(s).Some? <==> exists i, j :: BraceSpan(s, i, j)
    ensures BraceCandidate(s).Some? ==>
              exists i, j :: BraceSpan(s, i, j) && BraceCandidate(s).value == s[i..j + 1]
                             && (forall k :: 0 <= k < i ==> s[k] != '{')
                             && (forall k :: j < k < |s| ==> s[k] != '}')
  {
    match (FirstIndexOf(s, '{'), LastIndexOf(s, '}'))
    case (Some(i), Some(j)) =>
      if i < j {
        assert BraceSpan(s, i, j);
      }
    case _ =>
  }

  /** The regular-expression reading of the candidate: leftmost match
      start, then the longest match from there. */
  ghost predicate LeftmostLongest(s: string, i: int, j: int) {
    && BraceSpan(s, i, j)
    && (forall i', j' :: BraceSpan(s, i', j') ==> i <= i')
    && (forall j' :: BraceSpan(s, i, j') ==> j' <= j)
  }

  /** The leftmost-longest span is unique. */
  lemma LeftmostLongestUnique(s: string, i: int, j: int, i': int, j': int)
    requires LeftmostLongest(s, i, j) && LeftmostLongest(s, i', j')
    ensures i == i' && j == j'
  {
  }

  /** The span the candidate is cut from is the leftmost-longest one. */
  lemma CandidateSpanIsLeftmostLongest(s: string, i: int, j: int)
    requires BraceSpan(s, i, j)
    requires forall k :: 0 <= k < i ==> s[k] != '{'
    requires forall k :: j < k < |s| ==> s[k] != '}'
    ensures LeftmostLongest(s, i, j)
  {
  }

  lemma BraceCandidateAbsent(s: string)
    ensures BraceCandidate(s).None? <==> forall i, j :: !BraceSpan(s, i, j)
  {
    BraceCandidateSpan(s);
  }

  lemma BraceCandidateFound(s: string)
    requires BraceCandidate(s).Some?
    ensures exists i, j :: LeftmostLongest(s, i, j) && BraceCandidate(s) == Some(s[i..j + 1])
  {
    BraceCandidateSpan(s);
    var i, j :| BraceSpan(s, i, j) && BraceCandidate(s).value == s[i..j + 1]
                 && (forall k :: 0 <= k < i ==> s[k] != '{')
                 && (forall k :: j < k < |s| ==> s[k] != '}');
    CandidateSpanIsLeftmostLongest(s, i, j);
  }

  lemma LeftmostLongestFound(s: string, i: int, j: int)
    requires LeftmostLongest(s, i, j)
    ensures BraceCandidate(s) == Some(s[i..j + 1])
  {
    BraceCandidateAbsent(s);
    BraceCandidateFound(s);
    var i', j' :| LeftmostLongest(s, i', j') && BraceCandidate(s) == Some(s[i'..j' + 1]);
    LeftmostLongestUnique(s, i, j, i', j');
  }

  /** The candidate is exactly the leftmost-longest match of `\{.*\}`,
      and there is none when no `{` precedes a `}`. */
  lemma BraceCandidateIsRegexSearch(s: string)
    ensures BraceCandidate(s).None? <==> forall i, j :: !BraceSpan(s, i, j)
    ensures forall i, j :: LeftmostLongest(s, i, j) ==> BraceCandidate(s) == Some(s[i..j + 1])
    ensures BraceCandidate(s).Some? ==>
              exists i, j :: LeftmostLongest(s, i, j) && BraceCandidate(s) == Some(s[i..j + 1])
  {
    BraceCandidateAbsent(s);
    if BraceCandidate(s).Some? {
      BraceCandidateFound(s);
    }
    forall i, j | LeftmostLongest(s, i, j)
      ensures BraceCandidate(s) == Some(s[i..j + 1])
    {
      LeftmostLongestFound(s, i, j);
    }
  }

  /** Prose around one JSON payload: with no `{` before it and no `}` after
      it, the candidate is exactly the payload. */
  lemma BraceCandidateInProse(before: string, payload: string, after: string)
    requires |payload| >= 2 && payload[0] == '{' && payload[|payload| - 1] == '}'
    requires forall k :: 0 <= k < |before| ==> before[k] != '{'
    requires forall k :: 0 <= k < |after| ==> after[k] != '}'
    ensures BraceCandidate(before + payload + after) == Some(payload)
  {
    var s := before + payload + after;
    var i := |before|;
    var j := |before| + |payload| - 1;
    assert BraceSpan(s, i, j);
    BraceCandidateIsRegexSearch(s);
    assert LeftmostLongest(s, i, j) by {
      assert forall k :: 0 <= k < i ==> s[k] == before[k];
      assert forall k :: j < k < |s| ==> s[k] == after[k - j - 1];
    }
    assert s[i..j + 1] == payload;
  }
}
