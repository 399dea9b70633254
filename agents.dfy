/**
 * The three agents of src/agents.py and their shared reply cleaner. The call to
 * the text-generation service is not modelled: each agent receives the service's
 * reply as a string. `json.loads` is a parameter `loads` that returns `None` for
 * text it cannot decode, which is how `clean_and_parse_json` reports a
 * `JSONDecodeError`.
 */
module Agents {
  import opened Wrappers
  import opened PyStr
  import opened State

  /** The opening fence with a language tag, removed first. */
  const JsonFence: string := "```json"
  /** The bare fence, removed second. */
  const Fence: string := "```"

  // ---------------------------------------------------------------------------
  // clean_and_parse_json
  // ---------------------------------------------------------------------------

  /**
   * The reply with every "```json" and then every "```" deleted, and the result
   * stripped. No "```" is left, even where deleting "```json" joined backticks
   * together, and the text neither starts nor ends with whitespace.
   */
  function CleanText(content: string): (r: string)
    ensures !Occurs(r, Fence)
    ensures r == [] || (!IsSpace(r[0]) && !IsSpace(r[|r| - 1]))
    ensures |r| <= |content|
  {
    var once := Remove(content, JsonFence);
    assert Uniform(Fence);
    RemoveUniformLeavesNone(once, Fence);
    StripHasNone(Remove(once, Fence), Fence);
    Strip(Remove(once, Fence))
  }

  /** `text.startswith(open) and close in text`. */
  predicate Opens(text: string, open: char, close: char) {
    text != [] && text[0] == open && close in text
  }

  /**
   * The bracket truncation: a text that opens a list and holds a ']' is cut just
   * after its last ']'; failing that, one that opens an object and holds a '}' is cut
   * just after its last '}'; any other text is left alone.
   */
  function Truncate(text: string): (r: string)
    ensures |r| <= |text| && r == text[..|r|]
    ensures Opens(text, '[', ']') ==>
      r != [] && r[0] == '[' && r[|r| - 1] == ']' && ']' !in text[|r|..]
    ensures !Opens(text, '[', ']') && Opens(text, '{', '}') ==>
      r != [] && r[0] == '{' && r[|r| - 1] == '}' && '}' !in text[|r|..]
    ensures !Opens(text, '[', ']') && !Opens(text, '{', '}') ==> r == text
  {
    if Opens(text, '[', ']') then
      var end := LastIndex(text, ']') + 1;
      text[..end]
    else if Opens(text, '{', '}') then
      var end := LastIndex(text, '}') + 1;
      text[..end]
    else text
  }

  /**
   * The exact text `clean_and_parse_json` hands to `json.loads`: a prefix of the
   * cleaned text, so it holds no "```" either.
   */
  function ExtractJsonText(content: string): (r: string)
    ensures !Occurs(r, Fence)
    ensures var c := CleanText(content); |r| <= |c| && r == c[..|r|]
  {
    var c := CleanText(content);
    InfixHasNone(c, Fence, 0, |Truncate(c)|);
    assert c[0..|Truncate(c)|] == Truncate(c);
    Truncate(c)
  }

  /**
   * `clean_and_parse_json`: decode the extracted text; a decode error gives `None`
   * rather than escaping to the caller. The decoder only ever sees a fence-free
   * text no longer than the reply.
   */
  function CleanAndParseJson<J>(content: string, loads: string -> Option<J>): (r: Option<J>)
    ensures exists t :: |t| <= |content| && !Occurs(t, Fence) && r == loads(t)
  {
    var t := ExtractJsonText(content);
    assert |t| <= |content|;
    loads(t)
  }

  /** A body without backticks wrapped in a "```json" ... "```" fence is unwrapped and stripped. */
  lemma {:induction false} CleanFencedBody(body: string)
    requires '`' !in body
    ensures CleanText(JsonFence + body + Fence) == Strip(body)
  {
    var inner := body + Fence;
    RemoveFence([], inner, JsonFence);
    assert [] + JsonFence + inner == JsonFence + body + Fence;
    assert [] + Remove(inner, JsonFence) == Remove(inner, JsonFence);
    assert forall k :: 0 <= k < |body| ==> inner[k] != JsonFence[0];
    RemoveAbsent(inner, JsonFence);
    RemoveFence(body, [], Fence);
    assert body + Fence + [] == inner;
    assert body + [] == body;
  }

  /** A text that opens with '[' and closes with ']' is not cut. */
  lemma {:induction false} ClosedListKept(t: string)
    requires t != [] && t[0] == '[' && t[|t| - 1] == ']'
    ensures Truncate(t) == t
  {
    assert Opens(t, '[', ']');
    assert LastIndex(t, ']') == |t| - 1;
    assert t[..|t|] == t;
  }

  /**
   * A fenced list, as the quiz prompt asks for it, reaches `json.loads` intact: the
   * fences and the surrounding whitespace are gone and nothing else is cut.
   */
  lemma {:induction false} FencedListReachesDecoder(body: string)
    requires '`' !in body
    requires var t := Strip(body); t != [] && t[0] == '[' && t[|t| - 1] == ']'
    ensures ExtractJsonText(JsonFence + body + Fence) == Strip(body)
  {
    CleanFencedBody(body);
    ClosedListKept(Strip(body));
  }

  /** Fencing a backtick-free reply does not change what it decodes to. */
  lemma {:induction false} FencingIsTransparent<J>(body: string, loads: string -> Option<J>)
    requires '`' !in body
    ensures CleanAndParseJson(JsonFence + body + Fence, loads) == CleanAndParseJson(body, loads)
  {
    CleanFencedBody(body);
    assert Remove(body, JsonFence) == body;
    assert Remove(body, Fence) == body;
  }

  /** Prose after a list that holds no ']' is cut off. */
  lemma {:induction false} TrailingProseDropped(list: string, tail: string)
    requires list != [] && list[0] == '[' && list[|list| - 1] == ']' && ']' !in tail
    ensures Truncate(list + tail) == list
  {
    var t := list + tail;
    assert Opens(t, '[', ']') by { assert t[|list| - 1] == ']'; }
    var r := Truncate(t);
    assert t[|list| - 1] == ']';
    assert t[..|list|] == list;
  }

  // ---------------------------------------------------------------------------
  // The agents
  // ---------------------------------------------------------------------------

  /** The explainer node: the service's reply becomes the explanation, verbatim. */
  function ExplainerAgent(s: EduState, reply: string): (r: EduState)
    ensures r.explanation == reply && r.status == "explaining"
    ensures r.(explanation := s.explanation, status := s.status) == s
  {
    s.(explanation := reply, status := "explaining")
  }

  /**
   * The quiz decoded from a reply, with `[]` standing in for a failed or falsy
   * decode: the quiz is empty exactly when decoding fails or gives the empty list.
   */
  function DecodedQuiz(reply: string, loads: string -> Option<seq<QuizQuestion>>): (q: seq<QuizQuestion>)
    ensures var d := CleanAndParseJson(reply, loads); q == [] <==> d.None? || d == Some([])
    ensures q != [] ==> CleanAndParseJson(reply, loads) == Some(q)
  {
    match CleanAndParseJson(reply, loads)
    case Some(quiz) => quiz
    case None => []
  }

  /**
   * The quiz generator node: it installs the decoded quiz (the empty quiz when
   * decoding fails) and always resets the pointer, the score and the answers.
   */
  function QuizGeneratorAgent(s: EduState, reply: string, loads: string -> Option<seq<QuizQuestion>>): (r: EduState)
    ensures r.currentQIndex == 0 && r.score == 0 && r.userAnswers == map[] && r.status == "quizzing"
    ensures CleanAndParseJson(reply, loads).None? ==> r.quizData == []
    ensures CleanAndParseJson(reply, loads).Some? ==> r.quizData == CleanAndParseJson(reply, loads).value
    ensures r.topic == s.topic && r.difficulty == s.difficulty && r.explanation == s.explanation
    ensures r.feedbackMsg == s.feedbackMsg && r.nextRecommendation == s.nextRecommendation
  {
    s.(quizData := DecodedQuiz(reply, loads), currentQIndex := 0, score := 0, userAnswers := map[],
       status := "quizzing")
  }

  /** Whatever the reply, the quiz generator's output satisfies the quiz invariant. */
  lemma {:induction false} QuizGeneratorKeepsInvariant(s: EduState, reply: string, loads: string -> Option<seq<QuizQuestion>>)
    ensures QuizInvariant(QuizGeneratorAgent(s, reply, loads))
  {
    var r := QuizGeneratorAgent(s, reply, loads);
    assert r.currentQIndex == 0 && r.userAnswers == map[];
  }

  /** The keys the feedback prompt asks for. */
  const FeedbackKey: string := "feedback"
  const RecommendationKey: string := "recommendation"

  /** The message of the fallback object. */
  const FallbackMessage: string := "Good effort! (Error generating detailed feedback)"
  /** The default when the decoded object has no "feedback" key. */
  const NoFeedback: string := "No feedback provided."
  /** The fallback recommendation and the default for a missing "recommendation" key. */
  const Retry: string := "RETRY"

  /** The fixed object the feedback node uses when the reply does not decode to a non-empty object. */
  const FeedbackFallback: map<string, string> :=
    map[FeedbackKey := FallbackMessage, RecommendationKey := Retry]

  /** `data.get(key, default)` on a decoded object. */
  function Get(data: map<string, string>, key: string, default: string): string {
    if key in data then data[key] else default
  }

  /** The object the feedback node reads: the decoded one, or the fallback when it is missing or empty. */
  function FeedbackData(reply: string, loads: string -> Option<map<string, string>>): (data: map<string, string>)
    ensures data != map[]
    ensures var d := CleanAndParseJson(reply, loads);
      (d.None? || d == Some(map[]) ==> data == FeedbackFallback) && (d.Some? && d.value != map[] ==> data == d.value)
  {
    assert FeedbackKey in FeedbackFallback;
    match CleanAndParseJson(reply, loads)
    case Some(data) => if data == map[] then FeedbackFallback else data
    case None => FeedbackFallback
  }

  /**
   * The feedback node. A reply that does not decode (or decodes to an empty object)
   * yields the fixed fallback message and "RETRY"; otherwise each missing key falls
   * back on its own default. The recommendation is never checked against the three
   * levels the prompt names. Nothing about the quiz changes.
   */
  function FeedbackAgent(s: EduState, reply: string, loads: string -> Option<map<string, string>>): (r: EduState)
    ensures r.status == "feedback"
    ensures var d := CleanAndParseJson(reply, loads);
      d.None? || d == Some(map[]) ==> r.feedbackMsg == FallbackMessage && r.nextRecommendation == Retry
    ensures var d := CleanAndParseJson(reply, loads);
      d.Some? && d.value != map[] ==>
        && r.feedbackMsg == (if FeedbackKey in d.value then d.value[FeedbackKey] else NoFeedback)
        && r.nextRecommendation == (if RecommendationKey in d.value then d.value[RecommendationKey] else Retry)
    ensures r.(feedbackMsg := s.feedbackMsg, nextRecommendation := s.nextRecommendation, status := s.status) == s
  {
    var data := FeedbackData(reply, loads);
    assert FeedbackKey != RecommendationKey;
    s.(feedbackMsg := Get(data, FeedbackKey, NoFeedback),
       nextRecommendation := Get(data, RecommendationKey, Retry),
       status := "feedback")
  }

  /** The recommendation is "RETRY" unless the decoded object itself names another one. */
  lemma {:induction false} RecommendationSource(s: EduState, reply: string, loads: string -> Option<map<string, string>>)
    ensures var rec := FeedbackAgent(s, reply, loads).nextRecommendation;
      var d := CleanAndParseJson(reply, loads);
      rec == Retry || (d.Some? && RecommendationKey in d.value && rec == d.value[RecommendationKey])
  {
  }
}
