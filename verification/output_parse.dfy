/** Turning the model's raw output into the cached result: plain text for a cover
    letter, JSON for a CV, with a salvage step that cuts the greedy `{...}` span out of
    chatty output. `JSON.parse` is the abstract `parse` argument. */
module OutputParse {
  import opened Outcomes
  import opened JsonValue

  /** The two result kinds the generator produces. */
  datatype Kind = Cv | Cover

  const NonJsonError: string := "LLM returned non-JSON output."
  const InvalidJsonError: string := "LLM returned invalid JSON."

  /** The first position of `c` in `s`. */
  function FirstIndex(s: string, c: char): (r: Option<nat>)
    ensures r.None? <==> c !in s
    ensures r.Some? ==> r.value < |s| && s[r.value] == c
    ensures r.Some? ==> forall k :: 0 <= k < r.value ==> s[k] != c
  {
    if s == [] then None
    else if s[0] == c then Some(0)
    else
      match FirstIndex(s[1..], c)
      case None => None
      case Some(i) => Some(i + 1)
  }

  /** The last position of `c` in `s`. */
  function LastIndex(s: string, c: char): (r: Option<nat>)
    ensures r.None? <==> c !in s
    ensures r.Some? ==> r.value < |s| && s[r.value] == c
    ensures r.Some? ==> forall k :: r.value < k < |s| ==> s[k] != c
  {
    if s == [] then None
    else if s[|s| - 1] == c then Some(|s| - 1)
    else
      var init := s[..|s| - 1];
      match LastIndex(init, c)
      case None =>
        assert s == init + [s[|s| - 1]];
        None
      case Some(i) => Some(i)
  }

  /** The match of `/\{[\s\S]*\}/`: from the first `{` to the last `}` after it, if any. */
  function GreedySpan(s: string): (r: Option<string>)
    ensures r.Some? ==> |r.value| >= 2 && r.value[0] == '{' && r.value[|r.value| - 1] == '}'
  {
    match FirstIndex(s, '{')
    case None => None
    case Some(i) =>
      match LastIndex(s, '}')
      case None => None
      case Some(j) => if i < j then Some(s[i..j + 1]) else None
  }

  /** `s[i..j]` is a regex match of `\{[\s\S]*\}` in `s`. */
  predicate BraceMatchAt(s: string, i: int, j: int) {
    0 <= i < j < |s| && s[i] == '{' && s[j] == '}'
  }

  /** The span is the leftmost-longest match: it exists exactly when some `{` precedes some
      `}`, and it then starts at the first `{` and ends at the last `}`, so no match starts
      earlier and none that starts there is longer. */
  lemma {:induction false} GreedySpanIsLeftmostLongest(s: string)
    ensures GreedySpan(s).Some? <==> exists i, j :: BraceMatchAt(s, i, j)
    ensures GreedySpan(s).Some? ==> exists i: nat, j: nat ::
      && BraceMatchAt(s, i, j)
      && GreedySpan(s).value == s[i..j + 1]
      && (forall k :: 0 <= k < i ==> s[k] != '{')
      && (forall k :: j < k < |s| ==> s[k] != '}')
  {
    var fi := FirstIndex(s, '{');
    var lj := LastIndex(s, '}');
    if fi.Some? && lj.Some? && fi.value < lj.value {
      assert BraceMatchAt(s, fi.value, lj.value);
    }
    if exists i, j :: BraceMatchAt(s, i, j) {
      var i, j :| BraceMatchAt(s, i, j);
      assert s[i] in s && s[j] in s;
    }
  }

  /** A position holding `c` with no `c` before it is the first position. */
  lemma FirstIndexAt(s: string, c: char, i: nat)
    requires i < |s| && s[i] == c
    requires forall k :: 0 <= k < i ==> s[k] != c
    ensures FirstIndex(s, c) == Some(i)
  {
    assert s[i] in s;
  }

  /** A position holding `c` with no `c` after it is the last position. */
  lemma LastIndexAt(s: string, c: char, i: nat)
    requires i < |s| && s[i] == c
    requires forall k :: i < k < |s| ==> s[k] != c
    ensures LastIndex(s, c) == Some(i)
  {
    assert s[i] in s;
  }

  /** The result a raw output stands for: a cover letter is kept as text; a CV is parsed
      strictly, else its greedy `{...}` span is parsed, failing with one message when
      there is no span and another when the span does not parse. */
  function ParseOutput(kind: Kind, raw: string, parse: string -> Option<Json>): (r: Result<Json, string>)
    ensures kind == Cover ==> r == Success(JStr(raw))
    ensures kind == Cv && parse(raw).Some? ==> r == Success(parse(raw).value)
    ensures kind == Cv && parse(raw).None? && GreedySpan(raw).None? ==> r == Failure(NonJsonError)
    ensures kind == Cv && parse(raw).None? && GreedySpan(raw).Some? ==>
      r == (match parse(GreedySpan(raw).value)
            case Some(j) => Success(j)
            case None => Failure(InvalidJsonError))
  {
    if kind == Cover then Success(JStr(raw))
    else
      match parse(raw)
      case Some(j) => Success(j)
      case None =>
        match GreedySpan(raw)
        case None => Failure(NonJsonError)
        case Some(span) =>
          match parse(span)
          case Some(j) => Success(j)
          case None => Failure(InvalidJsonError)
  }

  /** The only errors parsing produces are the two distinct salvage messages. */
  lemma ParseErrors(kind: Kind, raw: string, parse: string -> Option<Json>)
    ensures ParseOutput(kind, raw, parse).Failure? ==>
      kind == Cv && parse(raw).None? &&
      (ParseOutput(kind, raw, parse).error == NonJsonError <==> GreedySpan(raw).None?) &&
      (ParseOutput(kind, raw, parse).error == InvalidJsonError <==> GreedySpan(raw).Some?)
  {
  }

  /** Output made of prose with no `{`, a braced body, and prose with no `}` is salvaged
      into whatever its body parses to, when the whole does not parse. */
  lemma SalvageSurrounded(before: string, body: string, after: string, parse: string -> Option<Json>)
    requires '{' !in before && '}' !in after
    requires |body| >= 2 && body[0] == '{' && body[|body| - 1] == '}'
    requires parse(before + body + after).None?
    ensures GreedySpan(before + body + after) == Some(body)
    ensures ParseOutput(Cv, before + body + after, parse) ==
      (match parse(body) case Some(j) => Success(j) case None => Failure(InvalidJsonError))
  {
    var s := before + body + after;
    var i := |before|;
    var j := |before| + |body| - 1;
    assert s[i] == body[0] && s[j] == body[|body| - 1];
    forall k | 0 <= k < i ensures s[k] != '{' {
      assert s[k] == before[k];
    }
    forall k | j < k < |s| ensures s[k] != '}' {
      assert s[k] == after[k - j - 1];
    }
    FirstIndexAt(s, '{', i);
    LastIndexAt(s, '}', j);
    assert s[i..j + 1] == body;
  }

  /** Output with prose around a JSON object is salvaged into that object. */
  lemma SalvageExample(parse: string -> Option<Json>, obj: Json)
    requires parse("prefix text {\"a\":1} suffix").None?
    requires parse("{\"a\":1}") == Some(obj)
    ensures ParseOutput(Cv, "prefix text {\"a\":1} suffix", parse) == Success(obj)
  {
    assert "prefix text {\"a\":1} suffix" == "prefix text " + "{\"a\":1}" + " suffix";
    SalvageSurrounded("prefix text ", "{\"a\":1}", " suffix", parse);
  }
}
