/** What `generateTodos` (todo-app/services/groqService.ts) does with the
    chat-completion response once it has arrived: default the missing content
    to `"[]"`, cut out the text the pattern `/\[[\s\S]*\]/` matches, parse it
    as JSON, and accept it only if it is an array made entirely of strings.
    The request itself is not modelled, and `JSON.parse` is a parameter. */
module GroqService {

  datatype Option<+T> = None | Some(value: T)

  /** The values `JSON.parse` can produce. Numbers are kept as reals; nothing
      here computes with them. */
  datatype Json =
    | JNull
    | JBool(b: bool)
    | JNumber(n: real)
    | JString(s: string)
    | JArray(elems: seq<Json>)
    | JObject(members: seq<(string, Json)>)

  /** The part of the chat-completion response the generator reads:
      `choices[0]?.message?.content`, each step possibly absent. */
  datatype Message = Message(content: Option<string>)
  datatype Choice = Choice(message: Option<Message>)
  datatype Completion = Completion(choices: seq<Choice>)

  const ParseFailure := "Failed to parse AI response"
  const ValidationFailure := "AI response was not an array of strings"

  /** How a call ends: the list of task strings, or one of the three errors it
      throws (`JsonError` is the `SyntaxError` of `JSON.parse`, propagated). */
  datatype Outcome =
    | Ok(todos: seq<string>)
    | ParseError(message: string)
    | JsonError
    | ValidationError(message: string)

  // ---------------------------------------------------------------------------
  // Default content

  /** The response has a first choice with a message that has content. */
  predicate HasContent(completion: Completion) {
    && |completion.choices| > 0
    && completion.choices[0].message.Some?
    && completion.choices[0].message.value.content.Some?
  }

  /** `choices[0]?.message?.content ?? '[]'`. Only an absent choice, message or
      content is replaced; an empty string is kept as it is. */
  function ReplyContent(completion: Completion): (content: string)
    ensures if HasContent(completion)
            then content == completion.choices[0].message.value.content.value
            else content == "[]"
  {
    if |completion.choices| == 0 then "[]"
    else match completion.choices[0].message
      case None => "[]"
      case Some(m) => match m.content
        case None => "[]"
        case Some(c) => c
  }

  // ---------------------------------------------------------------------------
  // The regular expression /\[[\s\S]*\]/

  /** `s[i..j+1]` is a text the pattern matches: it opens with `[` at `i` and
      closes with `]` at `j` (`[\s\S]` is any character at all). */
  predicate IsArraySpan(s: string, i: int, j: int) {
    0 <= i < j < |s| && s[i] == '[' && s[j] == ']'
  }

  /** The match `String.prototype.match` reports: the leftmost start at which
      the pattern matches, and at that start the longest match, because `*`
      is greedy. */
  ghost predicate IsRegexMatch(s: string, i: int, j: int) {
    && IsArraySpan(s, i, j)
    && (forall i', j' :: IsArraySpan(s, i', j') ==> i <= i')
    && (forall j' :: IsArraySpan(s, i, j') ==> j' <= j)
  }

  /** The index of the first occurrence of `c`, if any. */
  function IndexOf(s: string, c: char): (r: Option<nat>)
    ensures r.Some? ==> r.value < |s| && s[r.value] == c
                        && forall k :: 0 <= k < r.value ==> s[k] != c
    ensures r.None? ==> forall k :: 0 <= k < |s| ==> s[k] != c
  {
    if s == [] then None
    else if s[0] == c then Some(0)
    else match IndexOf(s[1..], c)
      case None => None
      case Some(k) => Some(k + 1)
  }

  /** The index of the last occurrence of `c`, if any. */
  function LastIndexOf(s: string, c: char): (r: Option<nat>)
    ensures r.Some? ==> r.value < |s| && s[r.value] == c
                        && forall k :: r.value < k < |s| ==> s[k] != c
    ensures r.None? ==> forall k :: 0 <= k < |s| ==> s[k] != c
  {
    if s == [] then None
    else if s[|s| - 1] == c then Some(|s| - 1)
    else LastIndexOf(s[..|s| - 1], c)
  }

  /** The bounds of the match, found as the first `[` and the last `]`: there
      is a match exactly when some `]` comes after the first `[`, and then it
      is the one the regular expression reports. */
  function MatchBounds(s: string): (r: Option<(nat, nat)>)
    ensures r.Some? ==> IsRegexMatch(s, r.value.0, r.value.1)
    ensures r.None? <==> forall i, j :: !IsArraySpan(s, i, j)
  {
    match IndexOf(s, '[')
    case None => None
    case Some(i) =>
      match LastIndexOf(s, ']')
      case None => None
      case Some(j) => if i < j then Some((i, j)) else None
  }

  /** `content.match(/\[[\s\S]*\]/)?.[0]`. */
  function ExtractArray(content: string): (r: Option<string>)
    ensures r.None? <==> forall i, j :: !IsArraySpan(content, i, j)
    ensures r.Some? ==> exists i, j :: IsRegexMatch(content, i, j) && r.value == content[i..j + 1]
  {
    match MatchBounds(content)
    case None => None
    case Some((i, j)) => Some(content[i..j + 1])
  }

  /** The regular expression has at most one match. */
  lemma RegexMatchUnique(s: string, i: int, j: int, i': int, j': int)
    requires IsRegexMatch(s, i, j) && IsRegexMatch(s, i', j')
    ensures i == i' && j == j'
  {
  }

  /** The match starts at the first `[` of the text and ends at its last `]`,
      so it opens with `[`, closes with `]`, and takes in whatever lies
      between two separate arrays. */
  lemma RegexMatchIsFirstOpenToLastClose(s: string, i: int, j: int)
    requires IsRegexMatch(s, i, j)
    ensures s[i] == '[' && s[j] == ']'
    ensures forall k :: 0 <= k < i ==> s[k] != '['
    ensures forall k :: j < k < |s| ==> s[k] != ']'
  {
    forall k | 0 <= k < i ensures s[k] != '[' {
      assert !IsArraySpan(s, k, j);
    }
    forall k | j < k < |s| ensures s[k] != ']' {
      assert !IsArraySpan(s, i, k);
    }
  }

  /** Two arrays with prose between them are taken as one span. */
  lemma SwallowsTextBetweenArrays()
    ensures ExtractArray("[\"a\"] and [\"b\"]") == Some("[\"a\"] and [\"b\"]")
  {
    var s := "[\"a\"] and [\"b\"]";
    assert IndexOf(s, '[') == Some(0);
    assert LastIndexOf(s, ']') == Some(|s| - 1);
    assert s[0..|s|] == s;
  }

  // ---------------------------------------------------------------------------
  // Validation

  /** The JSON array holding the given strings, in order. */
  function StringArray(xs: seq<string>): (v: Json)
    ensures v.JArray? && |v.elems| == |xs|
    ensures forall k :: 0 <= k < |xs| ==> v.elems[k] == JString(xs[k])
  {
    JArray(seq(|xs|, k requires 0 <= k < |xs| => JString(xs[k])))
  }

  /** The strings of an array whose elements are all strings:
      `parsed.every(item => typeof item === 'string')`. */
  function Strings(elems: seq<Json>): (r: Option<seq<string>>)
    ensures r.Some? <==> forall k :: 0 <= k < |elems| ==> elems[k].JString?
    ensures r.Some? ==> |r.value| == |elems|
                        && forall k :: 0 <= k < |elems| ==> elems[k] == JString(r.value[k])
  {
    if elems == [] then Some([])
    else if !elems[0].JString? then None
    else match Strings(elems[1..])
      case None => None
      case Some(rest) => Some([elems[0].s] + rest)
  }

  /** `Array.isArray(parsed) && parsed.every(...)`, giving the strings. */
  function AsStringArray(v: Json): (r: Option<seq<string>>)
    ensures r.Some? <==> v.JArray? && forall k :: 0 <= k < |v.elems| ==> v.elems[k].JString?
    ensures r.Some? ==> v == StringArray(r.value)
  {
    if v.JArray? then Strings(v.elems) else None
  }

  /** Validation accepts exactly the arrays of strings, and gives back the
      strings they hold: no trimming, no filtering, no reordering. */
  lemma AsStringArrayRoundTrip(xs: seq<string>)
    ensures AsStringArray(StringArray(xs)) == Some(xs)
  {
    var v := StringArray(xs);
    var r := Strings(v.elems);
    assert r.Some?;
    assert r.value == xs;
  }

  // ---------------------------------------------------------------------------
  // The whole post-response path

  /** Lines 27-40 of `generateTodos` applied to the reply text `content`, with
      `parse` standing for `JSON.parse` (None where it throws). */
  function ProcessContent(content: string, parse: string -> Option<Json>): (r: Outcome)
    ensures r.ParseError? <==> forall i, j :: !IsArraySpan(content, i, j)
    ensures r.ParseError? ==> r.message == ParseFailure
    ensures r.ValidationError? ==> r.message == ValidationFailure
    ensures !r.ParseError? ==> exists i, j :: IsRegexMatch(content, i, j) && Verdict(parse(content[i..j + 1]), r)
  {
    match ExtractArray(content)
    case None => ParseError(ParseFailure)
    case Some(span) =>
      match parse(span)
      case None => JsonError
      case Some(parsed) =>
        match AsStringArray(parsed)
        case None => ValidationError(ValidationFailure)
        case Some(xs) => Ok(xs)
  }

  /** How the parsed span decides the outcome once a span was found: a parse
      failure propagates, a value that is not an array of strings is a
      validation error, and otherwise the outcome is exactly its strings. */
  ghost predicate Verdict(parsed: Option<Json>, r: Outcome) {
    match parsed
    case None => r == JsonError
    case Some(v) =>
      if v.JArray? && forall k :: 0 <= k < |v.elems| ==> v.elems[k].JString?
      then r.Ok? && v == StringArray(r.todos)
      else r == ValidationError(ValidationFailure)
  }

  /** `generateTodos` after the request: the reply's content, defaulted, then
      processed. */
  function GenerateTodos(completion: Completion, parse: string -> Option<Json>): (r: Outcome)
    ensures HasContent(completion) ==> r == ProcessContent(completion.choices[0].message.value.content.value, parse)
    ensures !HasContent(completion) ==> r == ProcessContent("[]", parse)
    ensures !HasContent(completion) ==> !r.ParseError?
  {
    assert !HasContent(completion) ==> IsArraySpan(ReplyContent(completion), 0, 1);
    ProcessContent(ReplyContent(completion), parse)
  }

  /** A reply with no choice, no message or no content is read as `"[]"` and
      gives the empty list, given a parser that reads `"[]"` as the empty array. */
  lemma AbsentContentGivesEmptyList(completion: Completion, parse: string -> Option<Json>)
    requires !HasContent(completion)
    requires parse("[]") == Some(JArray([]))
    ensures GenerateTodos(completion, parse) == Ok([])
  {
    assert ReplyContent(completion) == "[]";
    assert IndexOf("[]", '[') == Some(0);
    assert LastIndexOf("[]", ']') == Some(1);
    assert "[]"[0..2] == "[]";
  }

  /** Empty content is present, so it is not defaulted: it has no `[` and
      the call fails with the parse error. */
  lemma EmptyContentIsParseError(parse: string -> Option<Json>)
    ensures GenerateTodos(Completion([Choice(Some(Message(Some(""))))]), parse) == ParseError(ParseFailure)
  {
  }

  /** A reply with no brackets at all is a parse error. */
  lemma ProseIsParseError(parse: string -> Option<Json>)
    ensures ProcessContent("I cannot help with that", parse) == ParseError(ParseFailure)
  {
    var s := "I cannot help with that";
    assert forall k :: 0 <= k < |s| ==> s[k] != '[';
  }

  /** Commentary before the array is skipped and the strings come back as
      the model wrote them. */
  lemma CommentedArrayIsAccepted(parse: string -> Option<Json>)
    requires parse("[\"Buy milk\",\"Walk dog\"]") == Some(JArray([JString("Buy milk"), JString("Walk dog")]))
    ensures ProcessContent("Sure! " + "[\"Buy milk\",\"Walk dog\"]", parse) == Ok(["Buy milk", "Walk dog"])
  {
    var span := "[\"Buy milk\",\"Walk dog\"]";
    var s := "Sure! " + span;
    var xs := ["Buy milk", "Walk dog"];
    assert IndexOf(s, '[') == Some(6) by {
      assert s[6] == '[' && forall k :: 0 <= k < 6 ==> s[k] != '[';
    }
    assert LastIndexOf(s, ']') == Some(|s| - 1);
    assert s[6..|s|] == span;
    assert AsStringArray(JArray([JString(xs[0]), JString(xs[1])])) == Some(xs) by {
      AsStringArrayRoundTrip(xs);
      assert StringArray(xs).elems == [JString(xs[0]), JString(xs[1])];
    }
  }

  /** An array of numbers is refused by validation. */
  lemma NumberArrayIsValidationError(parse: string -> Option<Json>)
    requires parse("[1, 2, 3]") == Some(JArray([JNumber(1.0), JNumber(2.0), JNumber(3.0)]))
    ensures ProcessContent("[1, 2, 3]", parse) == ValidationError(ValidationFailure)
  {
    var s := "[1, 2, 3]";
    assert IndexOf(s, '[') == Some(0);
    assert LastIndexOf(s, ']') == Some(|s| - 1);
    assert s[0..|s|] == s;
  }
}
