/**
 * The lesson workflow of src/graph.py: four nodes, a fixed edge set with one
 * conditional edge, and the entry point. Node names are the strings the source
 * registers them under; the conditional edge maps the string the routing function
 * returns back to a node.
 */
module Graph {
  import opened Wrappers
  import opened State
  import opened Agents

  datatype Node = Explainer | QuizGen | HumanInput | Feedback

  /** The name each node is registered under. */
  function Name(n: Node): string {
    match n
    case Explainer => "explainer"
    case QuizGen => "quiz_gen"
    case HumanInput => "human_input"
    case Feedback => "feedback"
  }

  /** The node registered under `name`, if any. */
  function NodeNamed(name: string): (r: Option<Node>)
    ensures r.Some? ==> Name(r.value) == name
    ensures forall n :: Name(n) == name ==> r == Some(n)
  {
    if name == "explainer" then Some(Explainer)
    else if name == "quiz_gen" then Some(QuizGen)
    else if name == "human_input" then Some(HumanInput)
    else if name == "feedback" then Some(Feedback)
    else None
  }

  /** The entry point: the node registered as "explainer". */
  function Entry(): (n: Node)
    ensures Name(n) == "explainer" && NodeNamed("explainer") == Some(n)
  {
    Explainer
  }

  /** `wait_for_user`: the human-input node hands its state on untouched. */
  function WaitForUser(s: EduState): (r: EduState)
    ensures r == s
  {
    s
  }

  /**
   * `route_after_explanation`: defined, but not wired into any edge; it names the
   * same node as the explicit edge out of "explainer".
   */
  function RouteAfterExplanation(s: EduState): (r: string)
    ensures NodeNamed(r) == Successor(Explainer, s) == Some(QuizGen)
  {
    "quiz_gen"
  }

  /**
   * `route_quiz_loop`: "human_input" exactly when questions remain under the
   * pointer, and "feedback" otherwise; an empty quiz therefore goes to "feedback".
   */
  function RouteQuizLoop(s: EduState): (r: string)
    ensures r == "human_input" <==> s.currentQIndex < |s.quizData|
    ensures r == "feedback" <==> s.currentQIndex >= |s.quizData|
  {
    if s.currentQIndex < |s.quizData| then "human_input" else "feedback"
  }

  /** How far a node is from the end of the graph; every edge lowers it. */
  function Rank(n: Node): nat {
    match n
    case Explainer => 3
    case QuizGen => 2
    case HumanInput => 1
    case Feedback => 0
  }

  /**
   * The edge set, as the successor of `n` when it finishes with state `s`; `None`
   * means the run ends there ("feedback" has no outgoing edge). Every edge lowers
   * the rank, so the graph has no cycle.
   */
  function Successor(n: Node, s: EduState): (r: Option<Node>)
    ensures r.Some? ==> Rank(r.value) < Rank(n)
    ensures r.None? <==> n == Feedback
  {
    match n
    case Explainer => Some(QuizGen)
    case QuizGen => NodeNamed(RouteQuizLoop(s))
    case HumanInput => Some(Feedback)
    case Feedback => None
  }

  /** After the quiz generator, the run goes to "human_input" when questions remain and to "feedback" otherwise. */
  lemma {:induction false} QuizGenRoutes(s: EduState)
    ensures Successor(QuizGen, s) == if s.currentQIndex < |s.quizData| then Some(HumanInput) else Some(Feedback)
  {
  }

  /** What the service and the decoder return to the three agent nodes during one run. */
  datatype Replies = Replies(
    explanation: string,
    quiz: string,
    feedback: string,
    loadsQuiz: string -> Option<seq<QuizQuestion>>,
    loadsFeedback: string -> Option<map<string, string>>)

  /**
   * The state after node `n` has run and its update has been merged in. No node
   * changes the topic or the difficulty, and only the quiz generator touches the quiz,
   * the pointer, the score or the answers.
   */
  function ApplyNode(n: Node, s: EduState, replies: Replies): (r: EduState)
    ensures r.topic == s.topic && r.difficulty == s.difficulty
    ensures n != QuizGen ==>
      r.quizData == s.quizData && r.currentQIndex == s.currentQIndex && r.score == s.score && r.userAnswers == s.userAnswers
  {
    match n
    case Explainer => ExplainerAgent(s, replies.explanation)
    case QuizGen => QuizGeneratorAgent(s, replies.quiz, replies.loadsQuiz)
    case HumanInput => WaitForUser(s)
    case Feedback => FeedbackAgent(s, replies.feedback, replies.loadsFeedback)
  }

  /** Every node's output keeps the quiz invariant of its input. */
  lemma {:induction false} ApplyNodeKeepsInvariant(n: Node, s: EduState, replies: Replies)
    requires QuizInvariant(s)
    ensures QuizInvariant(ApplyNode(n, s, replies))
  {
    var r := ApplyNode(n, s, replies);
    if n == QuizGen {
      QuizGeneratorKeepsInvariant(s, replies.quiz, replies.loadsQuiz);
    }
  }

  /** The result of following the edges from a node: the nodes visited in order, and the final state. */
  datatype Trace = Trace(visited: seq<Node>, final: EduState)

  /**
   * The nodes the edge set visits from `n` when every node runs to completion,
   * with each node's update merged into the state before the next edge is chosen.
   * Terminates because every edge lowers the rank.
   */
  function Walk(n: Node, s: EduState, replies: Replies): (t: Trace)
    ensures t.visited != [] && t.visited[0] == n && t.visited[|t.visited| - 1] == Feedback
    decreases Rank(n)
  {
    var s' := ApplyNode(n, s, replies);
    match Successor(n, s')
    case None => Trace([n], s')
    case Some(next) =>
      var rest := Walk(next, s', replies);
      Trace([n] + rest.visited, rest.final)
  }

  /** One edge of a walk: a node that has a successor is followed by the walk from that successor. */
  lemma {:induction false} WalkStep(n: Node, s: EduState, replies: Replies, next: Node)
    requires Successor(n, ApplyNode(n, s, replies)) == Some(next)
    ensures var rest := Walk(next, ApplyNode(n, s, replies), replies);
      Walk(n, s, replies) == Trace([n] + rest.visited, rest.final)
  {
  }

  /** The run ends at "feedback", with the feedback node's output. */
  lemma {:induction false} WalkFromFeedback(s: EduState, replies: Replies)
    ensures Walk(Feedback, s, replies) == Trace([Feedback], ApplyNode(Feedback, s, replies))
  {
    assert Successor(Feedback, ApplyNode(Feedback, s, replies)) == None;
  }

  /** From "human_input" the edges go straight to "feedback", whether or not questions remain. */
  lemma {:induction false} WalkFromHumanInput(s: EduState, replies: Replies)
    ensures Walk(HumanInput, s, replies) == Trace([HumanInput, Feedback], ApplyNode(Feedback, s, replies))
  {
    WalkStep(HumanInput, s, replies, Feedback);
    WalkFromFeedback(s, replies);
  }

  /** A non-empty generated quiz sends the run through "human_input" to "feedback". */
  lemma {:induction false} WalkFromQuizGenAsks(s: EduState, replies: Replies)
    requires ApplyNode(QuizGen, s, replies).quizData != []
    ensures var s2 := ApplyNode(QuizGen, s, replies);
      Walk(QuizGen, s, replies) == Trace([QuizGen, HumanInput, Feedback], ApplyNode(Feedback, s2, replies))
  {
    var s2 := ApplyNode(QuizGen, s, replies);
    QuizGenRoutes(s2);
    WalkStep(QuizGen, s, replies, HumanInput);
    WalkFromHumanInput(s2, replies);
  }

  /** An empty generated quiz sends the run straight to "feedback". */
  lemma {:induction false} WalkFromQuizGenSkips(s: EduState, replies: Replies)
    requires ApplyNode(QuizGen, s, replies).quizData == []
    ensures var s2 := ApplyNode(QuizGen, s, replies);
      Walk(QuizGen, s, replies) == Trace([QuizGen, Feedback], ApplyNode(Feedback, s2, replies))
  {
    var s2 := ApplyNode(QuizGen, s, replies);
    QuizGenRoutes(s2);
    WalkStep(QuizGen, s, replies, Feedback);
    WalkFromFeedback(s2, replies);
  }

  /** From "quiz_gen" the edges visit "human_input" exactly when the decoded quiz is non-empty. */
  lemma {:induction false} WalkFromQuizGen(s: EduState, replies: Replies)
    ensures var s2 := ApplyNode(QuizGen, s, replies);
      var t := Walk(QuizGen, s, replies);
      && t.visited == (if s2.quizData != [] then [QuizGen, HumanInput, Feedback] else [QuizGen, Feedback])
      && t.final == ApplyNode(Feedback, s2, replies)
  {
    if ApplyNode(QuizGen, s, replies).quizData != [] {
      WalkFromQuizGenAsks(s, replies);
    } else {
      WalkFromQuizGenSkips(s, replies);
    }
  }

  /**
   * From the entry, the edges visit "explainer", "quiz_gen", then "human_input"
   * exactly when the generated quiz is non-empty, and end at "feedback", whose
   * output is the final state.
   */
  lemma {:induction false} WalkFromEntry(s: EduState, replies: Replies)
    ensures var t := Walk(Entry(), s, replies);
      var s2 := ApplyNode(QuizGen, ApplyNode(Explainer, s, replies), replies);
      && t.visited == [Explainer] + (if s2.quizData != [] then [QuizGen, HumanInput, Feedback] else [QuizGen, Feedback])
      && t.final == ApplyNode(Feedback, s2, replies)
  {
    var s1 := ApplyNode(Explainer, s, replies);
    WalkFromQuizGen(s1, replies);
    WalkStep(Explainer, s, replies, QuizGen);
  }

  /**
   * Whatever the replies, a run from the entry ends with the feedback status and
   * with the pointer, score and answers as the quiz generator reset them: the
   * feedback node sees no answer, because no edge waits for one.
   */
  lemma {:induction false} WalkEndsReset(s: EduState, replies: Replies)
    ensures var t := Walk(Entry(), s, replies);
      && t.final.status == "feedback"
      && t.final.quizData == DecodedQuiz(replies.quiz, replies.loadsQuiz)
      && t.final.currentQIndex == 0 && t.final.score == 0 && t.final.userAnswers == map[]
  {
    WalkFromEntry(s, replies);
    var s2 := ApplyNode(QuizGen, ApplyNode(Explainer, s, replies), replies);
    var s4 := ApplyNode(Feedback, s2, replies);
    assert s4.quizData == s2.quizData && s4.currentQIndex == s2.currentQIndex;
    assert s4.score == s2.score && s4.userAnswers == s2.userAnswers;
  }

  /** Every state the edge set passes through keeps the quiz invariant, whatever the replies were. */
  lemma {:induction false} WalkKeepsInvariant(n: Node, s: EduState, replies: Replies)
    requires QuizInvariant(s)
    ensures QuizInvariant(Walk(n, s, replies).final)
    decreases Rank(n)
  {
    var s' := ApplyNode(n, s, replies);
    ApplyNodeKeepsInvariant(n, s, replies);
    match Successor(n, s')
    case None =>
    case Some(next) => WalkKeepsInvariant(next, s', replies);
  }
}
