/**
 * The decisions of the Telegram handlers in src/bot.py: the topic taken from a
 * `/learn` command and the lesson it starts, the callback data on answer buttons
 * and its parse, the answer step that scores and records an answer in the
 * per-user store, and the choice between the next question and the feedback.
 * Messages, keyboards and Markdown are not modelled; each handler's visible
 * reaction is an outcome value.
 */
module Bot {
  import opened Wrappers
  import opened PyStr
  import opened State
  import opened Agents
  import opened Graph

  // ---------------------------------------------------------------------------
  // cmd_learn
  // ---------------------------------------------------------------------------

  const LearnCommand: string := "/learn"

  /**
   * The topic of a `/learn` message: every "/learn" deleted, then stripped; no text
   * gives no topic. The topic is never longer than the message and has no
   * surrounding whitespace.
   */
  function LearnTopic(text: Option<string>): (topic: string)
    ensures text.None? ==> topic == []
    ensures text.Some? ==> |topic| <= |text.value|
    ensures topic == [] || (!IsSpace(topic[0]) && !IsSpace(topic[|topic| - 1]))
  {
    match text
    case None => ""
    case Some(t) => if t == "" then "" else Strip(Remove(t, LearnCommand))
  }

  /**
   * The state a lesson starts from: the topic at "Beginner", "idle", with no quiz,
   * the pointer and score at 0 and no answers, which satisfies the quiz invariant.
   */
  function InitialState(topic: string): (s: EduState)
    ensures s.topic == topic && s.difficulty == "Beginner" && s.status == "idle"
    ensures s.explanation == "" && s.feedbackMsg == "" && s.nextRecommendation == ""
    ensures s.quizData == [] && s.currentQIndex == 0 && s.score == 0 && s.userAnswers == map[]
    ensures QuizInvariant(s)
  {
    EduState(topic, "Beginner", "", [], 0, map[], 0, "", "", "idle")
  }

  /**
   * `cmd_learn`: an empty topic is refused before any state exists; otherwise the
   * lesson starts at "Beginner", "idle", with no quiz, the pointer and score at 0
   * and no answers, which satisfies the quiz invariant.
   */
  function Learn(text: Option<string>): (r: Option<EduState>)
    ensures r.None? <==> LearnTopic(text) == []
    ensures r.Some? ==>
      && r.value.topic == LearnTopic(text) && r.value.difficulty == "Beginner" && r.value.status == "idle"
      && r.value.explanation == "" && r.value.feedbackMsg == "" && r.value.nextRecommendation == ""
      && r.value.quizData == [] && r.value.currentQIndex == 0 && r.value.score == 0 && r.value.userAnswers == map[]
      && QuizInvariant(r.value)
  {
    var topic := LearnTopic(text);
    if topic == [] then None else Some(InitialState(topic))
  }

  /**
   * After `cmd_learn` has run the workflow from the initial lesson, it asks a first
   * question only when the stored quiz is non-empty. That happens exactly when the
   * reply decoded to a non-empty quiz, and then the pointer is at its first question.
   */
  lemma {:induction false} LearnFollowUp(topic: string, replies: Replies)
    ensures var f := Walk(Entry(), InitialState(topic), replies).final;
      && (f.quizData != [] <==> DecodedQuiz(replies.quiz, replies.loadsQuiz) != [])
      && (f.quizData != [] ==> !QuizFinished(f) && f.currentQIndex == 0)
  {
    WalkEndsReset(InitialState(topic), replies);
  }

  /** The pass over "/learn " + topic deletes the command and copies the rest through. */
  lemma {:induction false} RemoveCommand(topic: string)
    requires !Occurs(" " + topic, LearnCommand)
    ensures Remove(LearnCommand + " " + topic, LearnCommand) == " " + topic
  {
    var rest := " " + topic;
    RemoveFence([], rest, LearnCommand);
    assert [] + LearnCommand + rest == LearnCommand + " " + topic;
    assert rest + [] == rest;
    RemoveSkip(rest, [], LearnCommand);
    assert rest + [] == rest;
  }

  /** "/learn " followed by a plain topic yields that topic. */
  lemma {:induction false} LearnTopicOfCommand(topic: string)
    requires !Occurs(" " + topic, LearnCommand)
    requires topic == [] || (!IsSpace(topic[0]) && !IsSpace(topic[|topic| - 1]))
    ensures LearnTopic(Some(LearnCommand + " " + topic)) == topic
  {
    var command := LearnCommand + " " + topic;
    assert command != "";
    RemoveCommand(topic);
    StripLeadingBlank(topic);
  }

  // ---------------------------------------------------------------------------
  // Callback data of the answer buttons
  // ---------------------------------------------------------------------------

  /** The data on the button for option `option` of question `qIdx`: "ans:<qIdx>:<option>". */
  function CallbackData(qIdx: int, option: int): (data: string)
    ensures IsAnswerCallback(data)
  {
    "ans" + [':'] + IntToString(qIdx) + [':'] + IntToString(option)
  }

  /** The dispatcher only routes callbacks whose data starts with "ans:" to the answer handler. */
  predicate IsAnswerCallback(data: string)
    ensures IsAnswerCallback(data) ==> data != [] && ':' in data
  {
    assert |data| >= 4 ==> data[..4][3] == data[3];
    |data| >= 4 && data[..4] == "ans:"
  }

  /** What the first lines of the answer handler make of the callback data. */
  datatype Parsed =
    | NoData                         // empty data: "No answer data."
    | BadFormat                      // not exactly three ':'-separated parts: "Invalid answer format."
    | NotAnInteger                   // `int()` raised on one of the fields; nothing catches it
    | Answer(qIdx: int, option: int)

  /**
   * Split the data on ':' and read the second and third parts as integers. The
   * format is refused exactly when the data does not hold two separators.
   */
  function ParseCallback(data: string): (r: Parsed)
    ensures r.NoData? <==> data == []
    ensures r.BadFormat? <==> data != [] && Count(data, ':') != 2
    ensures r.Answer? ==>
      var parts := Split(data, ':');
      |parts| == 3 && ParseInt(parts[1]) == Some(r.qIdx) && ParseInt(parts[2]) == Some(r.option)
    ensures data != [] && Count(data, ':') == 2 ==>
      var parts := Split(data, ':');
      && |parts| == 3
      && (r.NotAnInteger? <==> ParseInt(parts[1]).None? || ParseInt(parts[2]).None?)
      && (r.Answer? <==> ParseInt(parts[1]).Some? && ParseInt(parts[2]).Some?)
  {
    if data == [] then NoData
    else
      var parts := Split(data, ':');
      if |parts| != 3 then BadFormat
      else
        match (ParseInt(parts[1]), ParseInt(parts[2]))
        case (Some(q), Some(a)) => Answer(q, a)
        case _ => NotAnInteger
  }

  /** The text of a number holds no ':'. */
  lemma {:induction false} NoColon(n: int)
    ensures ':' !in IntToString(n)
  {
  }

  /** "<q>:<option>" splits into the two numbers. */
  lemma {:induction false} NumbersSplit(qIdx: int, option: int)
    ensures var q := IntToString(qIdx);
      ':' !in q && Split(q + [':'] + IntToString(option), ':') == [q, IntToString(option)]
  {
    NoColon(qIdx);
    NoColon(option);
    SplitNone(IntToString(option), ':');
    SplitAt(IntToString(qIdx), IntToString(option), ':');
  }

  /** Button data splits on ':' into "ans" and the two numbers. */
  lemma {:induction false} CallbackSplits(qIdx: int, option: int)
    ensures Split(CallbackData(qIdx, option), ':') == ["ans", IntToString(qIdx), IntToString(option)]
  {
    var q := IntToString(qIdx);
    var o := IntToString(option);
    NumbersSplit(qIdx, option);
    assert ':' !in "ans";
    SplitAt("ans", q + [':'] + o, ':');
    assert CallbackData(qIdx, option) == "ans" + [':'] + (q + [':'] + o);
  }

  /** Button data is routed to the answer handler and parses back to the numbers it was built from. */
  lemma {:induction false} CallbackRoundTrip(qIdx: int, option: int)
    ensures IsAnswerCallback(CallbackData(qIdx, option))
    ensures ParseCallback(CallbackData(qIdx, option)) == Answer(qIdx, option)
  {
    var data := CallbackData(qIdx, option);
    assert data[..4] == "ans:";
    CallbackSplits(qIdx, option);
    ParseIntRoundTrip(qIdx);
    ParseIntRoundTrip(option);
  }

  // ---------------------------------------------------------------------------
  // process_quiz_answer
  // ---------------------------------------------------------------------------

  /** How the answer handler ends. */
  datatype Outcome =
    | NoAnswerData
    | InvalidFormat
    | ParseCrash                     // ValueError from `int()`
    | OldQuestion                    // the question is not the one under the pointer
    | InvalidQuestionIndex           // empty quiz, or the pointer is past its end
    | IndexCrash                     // IndexError from `quiz_data[q_idx]`
    | Accepted(isCorrect: bool)

  /** An outcome together with the store it leaves behind. */
  datatype Step = Step(outcome: Outcome, sessions: map<int, EduState>)

  /** The stored state of a user; an unknown user has none (`get_state` gives empty values). */
  function Lookup(sessions: map<int, EduState>, userId: int): (v: Option<EduState>)
    ensures v.Some? <==> userId in sessions
    ensures v.Some? ==> v.value == sessions[userId]
  {
    if userId in sessions then Some(sessions[userId]) else None
  }

  /**
   * `current_values.get("current_q_index", -1)`: the stored pointer, or -1 for an
   * unknown user, which no button of a real question carries.
   */
  function CurrentIndex(v: Option<EduState>): (i: int)
    ensures v.Some? ==> i == v.value.currentQIndex
    ensures v.None? ==> i == -1
  {
    match v
    case Some(s) => s.currentQIndex
    case None => -1
  }

  /** `current_values.get("quiz_data", [])`: the stored quiz, and no question for an unknown user. */
  function CurrentQuiz(v: Option<EduState>): (quiz: seq<QuizQuestion>)
    ensures v.Some? ==> quiz == v.value.quizData
    ensures v.None? ==> |quiz| == 0
  {
    match v
    case Some(s) => s.quizData
    case None => []
  }

  /** Python's `xs[i]`: negative indices count from the end; anything else out of range raises. */
  function PyIndex<T>(xs: seq<T>, i: int): (r: Option<T>)
    ensures r.Some? <==> -|xs| <= i < |xs|
    ensures 0 <= i < |xs| ==> r == Some(xs[i])
    ensures -|xs| <= i < 0 ==> r == Some(xs[|xs| + i])
  {
    if 0 <= i < |xs| then Some(xs[i])
    else if -|xs| <= i < 0 then Some(xs[|xs| + i])
    else None
  }

  /** The invariant half of `Answered`, stated on the record update itself. */
  lemma {:induction false} AnsweredKeepsInvariant(s: EduState, qIdx: int, option: int, isCorrect: bool)
    ensures (QuizInvariant(s) && qIdx == s.currentQIndex < |s.quizData|
             && isCorrect == (option == s.quizData[qIdx].correctIndex)) ==>
      QuizInvariant(s.(score := s.score + (if isCorrect then 1 else 0),
                       currentQIndex := s.currentQIndex + 1,
                       userAnswers := s.userAnswers[qIdx := option]))
  {
    if QuizInvariant(s) && qIdx == s.currentQIndex < |s.quizData| && isCorrect == (option == s.quizData[qIdx].correctIndex) {
      AnswerKeepsInvariant(s, option);
    }
  }

  /**
   * The update the handler writes back for an accepted answer. When the answer is to
   * the question under the pointer and is scored against that question, the update
   * keeps the quiz invariant.
   */
  function Answered(s: EduState, qIdx: int, option: int, isCorrect: bool): (t: EduState)
    ensures (QuizInvariant(s) && qIdx == s.currentQIndex < |s.quizData|
             && isCorrect == (option == s.quizData[qIdx].correctIndex)) ==> QuizInvariant(t)
  {
    AnsweredKeepsInvariant(s, qIdx, option, isCorrect);
    s.(score := s.score + (if isCorrect then 1 else 0),
       currentQIndex := s.currentQIndex + 1,
       userAnswers := s.userAnswers[qIdx := option])
  }

  /**
   * The answer handler once the data has been parsed. Every refusal leaves the
   * store as it was. An accepted answer names the question under the pointer, which
   * lies inside the quiz; it raises the score by one exactly when the option is the
   * correct one, moves the pointer one on, records the option under the question and
   * changes nothing else, for no other user.
   */
  function Judge(sessions: map<int, EduState>, userId: int, p: Parsed): (r: Step)
    ensures !r.outcome.Accepted? ==> r.sessions == sessions
    ensures r.outcome == NoAnswerData <==> p.NoData?
    ensures r.outcome == InvalidFormat <==> p.BadFormat?
    ensures r.outcome == ParseCrash <==> p.NotAnInteger?
    ensures r.outcome == OldQuestion <==> p.Answer? && p.qIdx != CurrentIndex(Lookup(sessions, userId))
    ensures r.outcome == InvalidQuestionIndex <==>
      && p.Answer? && p.qIdx == CurrentIndex(Lookup(sessions, userId))
      && var quiz := CurrentQuiz(Lookup(sessions, userId));
      quiz == [] || p.qIdx >= |quiz|
    ensures userId !in sessions ==> !r.outcome.Accepted?
    ensures (p.Answer? && userId in sessions && p.qIdx == sessions[userId].currentQIndex
             && -|sessions[userId].quizData| <= p.qIdx < |sessions[userId].quizData|) ==> r.outcome.Accepted?
    ensures r.outcome == IndexCrash <==>
      && p.Answer? && userId in sessions && p.qIdx == sessions[userId].currentQIndex
      && sessions[userId].quizData != [] && p.qIdx < -|sessions[userId].quizData|
    ensures r.outcome.Accepted? ==>
      && userId in sessions && p.Answer? && userId in r.sessions
      && var s := sessions[userId];
      && var t := r.sessions[userId];
      && p.qIdx == s.currentQIndex && s.quizData != [] && p.qIdx < |s.quizData|
      && -|s.quizData| <= p.qIdx
      && (0 <= p.qIdx ==> r.outcome.isCorrect == (p.option == s.quizData[p.qIdx].correctIndex))
      && (p.qIdx < 0 ==> r.outcome.isCorrect == (p.option == s.quizData[|s.quizData| + p.qIdx].correctIndex))
      && r.sessions == sessions[userId := t]
      && t.score == s.score + (if r.outcome.isCorrect then 1 else 0)
      && t.currentQIndex == s.currentQIndex + 1
      && t.userAnswers == s.userAnswers[p.qIdx := p.option]
      && t.(score := s.score, currentQIndex := s.currentQIndex, userAnswers := s.userAnswers) == s
  {
    match p
    case NoData => Step(NoAnswerData, sessions)
    case BadFormat => Step(InvalidFormat, sessions)
    case NotAnInteger => Step(ParseCrash, sessions)
    case Answer(qIdx, option) =>
      var current := Lookup(sessions, userId);
      if qIdx != CurrentIndex(current) then Step(OldQuestion, sessions)
      else
        var quiz := CurrentQuiz(current);
        if quiz == [] || qIdx >= |quiz| then Step(InvalidQuestionIndex, sessions)
        else
          match PyIndex(quiz, qIdx)
          case None => Step(IndexCrash, sessions)
          case Some(question) =>
            var isCorrect := option == question.correctIndex;
            Step(Accepted(isCorrect), sessions[userId := Answered(current.value, qIdx, option, isCorrect)])
  }

  /**
   * The answer handler as a step on the store: parse, then judge. Empty data and a
   * malformed format are refused exactly as the parse decides.
   */
  function AnswerStep(sessions: map<int, EduState>, userId: int, data: string): (r: Step)
    ensures r.outcome == NoAnswerData <==> data == []
    ensures r.outcome == InvalidFormat <==> data != [] && Count(data, ':') != 2
  {
    Judge(sessions, userId, ParseCallback(data))
  }

  /** The quiz invariant of every stored lesson. */
  ghost predicate StoreInvariant(sessions: map<int, EduState>) {
    forall u :: u in sessions ==> QuizInvariant(sessions[u])
  }

  /** Judging any parsed callback keeps the invariant of every stored lesson. */
  lemma {:induction false} JudgeKeepsInvariant(sessions: map<int, EduState>, userId: int, p: Parsed)
    requires StoreInvariant(sessions)
    ensures StoreInvariant(Judge(sessions, userId, p).sessions)
  {
    var r := Judge(sessions, userId, p);
    if r.outcome.Accepted? {
      var s := sessions[userId];
      AnswerKeepsInvariant(s, p.option);
      assert r.sessions[userId] == Answered(s, p.qIdx, p.option, p.option == s.quizData[p.qIdx].correctIndex);
    }
  }

  /** The answer step keeps the invariant of every stored lesson. */
  lemma {:induction false} AnswerStepKeepsInvariant(sessions: map<int, EduState>, userId: int, data: string)
    requires StoreInvariant(sessions)
    ensures StoreInvariant(AnswerStep(sessions, userId, data).sessions)
  {
    JudgeKeepsInvariant(sessions, userId, ParseCallback(data));
  }

  /** The store after a sequence of answer callbacks, each a user id with its callback data, from any users in any order. */
  function Replay(sessions: map<int, EduState>, calls: seq<(int, string)>): map<int, EduState>
    decreases |calls|
  {
    if calls == [] then sessions
    else Replay(AnswerStep(sessions, calls[0].0, calls[0].1).sessions, calls[1..])
  }

  /**
   * Whatever callbacks arrive, each lesson keeps 0 <= score <= pointer <= |quiz|,
   * answers recorded for exactly the questions before the pointer, and a score
   * that counts the correct ones among them.
   */
  lemma {:induction false} ReplayKeepsInvariant(sessions: map<int, EduState>, calls: seq<(int, string)>)
    requires StoreInvariant(sessions)
    ensures StoreInvariant(Replay(sessions, calls))
    decreases |calls|
  {
    if calls != [] {
      AnswerStepKeepsInvariant(sessions, calls[0].0, calls[0].1);
      ReplayKeepsInvariant(AnswerStep(sessions, calls[0].0, calls[0].1).sessions, calls[1..]);
    }
  }

  /** Sending the same callback again after it was accepted is refused as an old question, without change. */
  lemma {:induction false} ResubmitIsStale(sessions: map<int, EduState>, userId: int, data: string)
    requires AnswerStep(sessions, userId, data).outcome.Accepted?
    ensures var after := AnswerStep(sessions, userId, data).sessions;
      AnswerStep(after, userId, data) == Step(OldQuestion, after)
  {
    var p := ParseCallback(data);
    var after := Judge(sessions, userId, p).sessions;
    assert CurrentIndex(Lookup(after, userId)) == sessions[userId].currentQIndex + 1;
    assert Judge(after, userId, p) == Step(OldQuestion, after);
  }

  /**
   * A number field ending in a unit separator makes `int()` raise, even for the
   * question under the pointer, and the store is left alone.
   */
  lemma {:induction false} SeparatorInFieldCrashes(sessions: map<int, EduState>, userId: int)
    ensures var data := "ans:0" + ['\U{1f}'] + ":1";
      AnswerStep(sessions, userId, data) == Step(ParseCrash, sessions)
  {
    var field := "0" + ['\U{1f}'];
    var data := "ans:0" + ['\U{1f}'] + ":1";
    assert data == "ans" + [':'] + (field + [':'] + "1");
    SplitNone("1", ':');
    SplitAt(field, "1", ':');
    SplitAt("ans", field + [':'] + "1", ':');
    UnitSeparatorNotSkipped();
    assert Split(data, ':')[1] == field;
    assert ParseCallback(data) == NotAnInteger;
  }

  /** A user with no stored lesson gets "Old question." for every button a question can carry. */
  lemma {:induction false} UnknownUserIsStale(sessions: map<int, EduState>, userId: int, qIdx: nat, option: int)
    requires userId !in sessions
    ensures AnswerStep(sessions, userId, CallbackData(qIdx, option)) == Step(OldQuestion, sessions)
  {
    CallbackRoundTrip(qIdx, option);
  }

  /**
   * A user with no stored lesson has the default pointer -1, so data forged with
   * question -1 gets past the staleness check and is refused as an invalid index.
   */
  lemma {:induction false} UnknownUserDefault(sessions: map<int, EduState>, userId: int, option: int)
    requires userId !in sessions
    ensures AnswerStep(sessions, userId, CallbackData(-1, option)) == Step(InvalidQuestionIndex, sessions)
  {
    CallbackRoundTrip(-1, option);
  }

  /** Once the pointer has reached the end of the quiz, every answer is refused. */
  lemma {:induction false} FinishedLessonRefuses(sessions: map<int, EduState>, userId: int, data: string)
    requires userId in sessions && QuizInvariant(sessions[userId])
    requires sessions[userId].currentQIndex == |sessions[userId].quizData|
    ensures AnswerStep(sessions, userId, data) == Step(AnswerStep(sessions, userId, data).outcome, sessions)
    ensures !AnswerStep(sessions, userId, data).outcome.Accepted?
  {
  }

  /**
   * Pressing any button of the question under the pointer is accepted: the answer
   * is scored against that question and recorded under its index.
   */
  lemma {:induction false} ButtonIsAccepted(sessions: map<int, EduState>, userId: int, i: int)
    requires userId in sessions && QuizInvariant(sessions[userId])
    requires var s := sessions[userId]; s.currentQIndex < |s.quizData|
    ensures var s := sessions[userId];
      var q := s.currentQIndex;
      var r := AnswerStep(sessions, userId, CallbackData(q, i));
      && r.outcome == Accepted(i == s.quizData[q].correctIndex)
      && r.sessions[userId].currentQIndex == q + 1
      && r.sessions[userId].userAnswers == s.userAnswers[q := i]
  {
    var s := sessions[userId];
    CallbackRoundTrip(s.currentQIndex, i);
  }

  /**
   * The option index is never checked against the options: a number past the last
   * option is accepted, counted as wrong unless it equals the stored correct index,
   * and recorded.
   */
  lemma {:induction false} OptionIndexNotRangeChecked(sessions: map<int, EduState>, userId: int)
    requires userId in sessions && QuizInvariant(sessions[userId])
    requires var s := sessions[userId]; s.currentQIndex < |s.quizData|
    ensures var s := sessions[userId];
      var q := s.currentQIndex;
      var beyond := |s.quizData[q].options|;
      var r := AnswerStep(sessions, userId, CallbackData(q, beyond));
      && r.outcome == Accepted(beyond == s.quizData[q].correctIndex)
      && r.sessions[userId].userAnswers == s.userAnswers[q := beyond]
  {
    var s := sessions[userId];
    ButtonIsAccepted(sessions, userId, |s.quizData[s.currentQIndex].options|);
  }

  // ---------------------------------------------------------------------------
  // The per-user store (the checkpointer's latest state per thread)
  // ---------------------------------------------------------------------------

  class SessionStore {
    var sessions: map<int, EduState>

    ghost predicate Valid()
      reads this
    {
      StoreInvariant(sessions)
    }

    constructor ()
      ensures sessions == map[] && Valid()
    {
      sessions := map[];
    }

    /** `cmd_learn`: a message with a topic stores the initial lesson for the user; one without changes nothing. */
    method StartLesson(userId: int, text: Option<string>) returns (topic: string)
      modifies this
      ensures topic == LearnTopic(text)
      ensures topic == [] ==> sessions == old(sessions)
      ensures topic != [] ==> sessions == old(sessions)[userId := Learn(text).value]
      ensures old(Valid()) ==> Valid()
    {
      topic := if text.None? || text.value == "" then "" else Strip(Remove(text.value, LearnCommand));
      if topic != [] {
        sessions := sessions[userId := InitialState(topic)];
      }
    }

    /** The checkpoint written once node `n` has run on the user's stored state. */
    method RunNode(userId: int, n: Node, replies: Replies)
      modifies this
      ensures userId in old(sessions) ==> sessions == old(sessions)[userId := ApplyNode(n, old(sessions)[userId], replies)]
      ensures userId !in old(sessions) ==> sessions == old(sessions)
      ensures old(Valid()) ==> Valid()
    {
      if userId in sessions {
        CheckpointKeepsStoreInvariant(sessions, userId, n, replies);
        sessions := sessions[userId := ApplyNode(n, sessions[userId], replies)];
      }
    }

    /**
     * `process_quiz_answer`: parse the data, refuse stale, unknown or out-of-range
     * questions, otherwise score the answer and write back score, pointer and
     * answers. The store ends as the answer step says.
     */
    method ProcessQuizAnswer(userId: int, data: string) returns (outcome: Outcome)
      modifies this
      ensures AnswerStep(old(sessions), userId, data) == Step(outcome, sessions)
      ensures !outcome.Accepted? ==> sessions == old(sessions)
      ensures old(Valid()) ==> Valid()
    {
      if data == [] {
        return NoAnswerData;
      }
      var parts := Split(data, ':');
      if |parts| != 3 {
        return InvalidFormat;
      }
      var q := ParseInt(parts[1]);
      var a := ParseInt(parts[2]);
      if q.None? || a.None? {
        assert ParseCallback(data) == NotAnInteger;
        return ParseCrash;
      }
      var qIdx, option := q.value, a.value;
      assert ParseCallback(data) == Answer(qIdx, option);
      var current := Lookup(sessions, userId);
      if qIdx != CurrentIndex(current) {
        return OldQuestion;
      }
      var quiz := CurrentQuiz(current);
      if quiz == [] || qIdx >= |quiz| {
        return InvalidQuestionIndex;
      }
      var question := PyIndex(quiz, qIdx);
      if question.None? {
        return IndexCrash;
      }
      var s := current.value;
      var isCorrect := option == question.value.correctIndex;
      ghost var expected := Step(Accepted(isCorrect), sessions[userId := Answered(s, qIdx, option, isCorrect)]);
      assert AnswerStep(sessions, userId, data) == expected;
      sessions := sessions[userId := Answered(s, qIdx, option, isCorrect)];
      outcome := Accepted(isCorrect);
      AnswerKeepsStoreInvariant(old(sessions), userId, data);
    }
  }

  /** The invariant of a store survives a node's checkpoint. */
  lemma {:induction false} CheckpointKeepsStoreInvariant(sessions: map<int, EduState>, userId: int, n: Node, replies: Replies)
    requires userId in sessions
    ensures StoreInvariant(sessions) ==> StoreInvariant(sessions[userId := ApplyNode(n, sessions[userId], replies)])
  {
    if StoreInvariant(sessions) {
      ApplyNodeKeepsInvariant(n, sessions[userId], replies);
    }
  }

  /** The invariant of a store survives an answer. */
  lemma {:induction false} AnswerKeepsStoreInvariant(sessions: map<int, EduState>, userId: int, data: string)
    ensures StoreInvariant(sessions) ==> StoreInvariant(AnswerStep(sessions, userId, data).sessions)
  {
    if StoreInvariant(sessions) {
      AnswerStepKeepsInvariant(sessions, userId, data);
    }
  }

  // ---------------------------------------------------------------------------
  // send_next_question
  // ---------------------------------------------------------------------------

  /** One inline button: its label and its callback data. */
  datatype Button = Button(text: string, data: string)

  /** What `send_next_question` does. */
  datatype Prompt =
    | ShowFeedback                                          // resume the graph and send the feedback
    | Ask(qIdx: int, question: QuizQuestion, buttons: seq<Button>)
    | QuestionIndexError                                    // IndexError from `quiz_data[q_idx]`

  /** `not quiz_data or q_idx >= len(quiz_data)`: nothing is left to ask. */
  predicate QuizFinished(s: EduState)
    ensures !QuizFinished(s) ==> s.quizData != [] && s.currentQIndex < |s.quizData|
    ensures 0 <= s.currentQIndex ==> (QuizFinished(s) <==> s.currentQIndex >= |s.quizData|)
  {
    s.quizData == [] || s.currentQIndex >= |s.quizData|
  }

  /**
   * `send_next_question`: the feedback branch exactly when the quiz is finished;
   * otherwise the question under the pointer with one button per option, in
   * order, each labelled with its option and carrying "ans:<pointer>:<position>".
   */
  method SendNextQuestion(s: EduState) returns (p: Prompt)
    ensures p.ShowFeedback? <==> QuizFinished(s)
    ensures p.QuestionIndexError? <==> !QuizFinished(s) && s.currentQIndex < -|s.quizData|
    ensures 0 <= s.currentQIndex < |s.quizData| ==> p.Ask? && p.question == s.quizData[s.currentQIndex]
    ensures -|s.quizData| <= s.currentQIndex < 0 ==> p.Ask? && p.question == s.quizData[|s.quizData| + s.currentQIndex]
    ensures p.Ask? ==>
      && p.qIdx == s.currentQIndex
      && |p.buttons| == |p.question.options|
      && forall i :: 0 <= i < |p.buttons| ==> p.buttons[i] == Button(p.question.options[i], CallbackData(p.qIdx, i))
  {
    var qIdx := s.currentQIndex;
    var quiz := s.quizData;
    if quiz == [] || qIdx >= |quiz| {
      return ShowFeedback;
    }
    var q := PyIndex(quiz, qIdx);
    if q.None? {
      return QuestionIndexError;
    }
    var options := q.value.options;
    var buttons: seq<Button> := [];
    var i := 0;
    while i < |options|
      invariant 0 <= i <= |options|
      invariant |buttons| == i
      invariant forall k :: 0 <= k < i ==> buttons[k] == Button(options[k], CallbackData(qIdx, k))
    {
      buttons := buttons + [Button(options[i], CallbackData(qIdx, i))];
      i := i + 1;
    }
    p := Ask(qIdx, q.value, buttons);
  }

  /**
   * For a lesson that keeps the invariant, `send_next_question` asks exactly when the
   * workflow's routing would pick "human_input", and shows feedback exactly when it
   * would pick "feedback".
   */
  lemma {:induction false} FinishedAgreesWithRoute(s: EduState)
    requires QuizInvariant(s)
    ensures QuizFinished(s) <==> RouteQuizLoop(s) == "feedback"
  {
  }
}
