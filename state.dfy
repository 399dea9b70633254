/**
 * The lesson state kept per user (src/state.py). Python's TypedDicts become
 * records; `Dict[int, int]` becomes a map. `difficulty`, `status` and
 * `next_recommendation` are plain strings in the source and stay strings here.
 */
module State {

  /** One multiple-choice question as the quiz generator produces it. */
  datatype QuizQuestion = QuizQuestion(
    id: int,
    question: string,
    options: seq<string>,
    correctIndex: int,
    explanation: string)

  /** The whole lesson state of one user. */
  datatype EduState = EduState(
    topic: string,
    difficulty: string,
    explanation: string,
    quizData: seq<QuizQuestion>,
    currentQIndex: int,
    userAnswers: map<int, int>,
    score: int,
    feedbackMsg: string,
    nextRecommendation: string,
    status: string)

  /** The number of questions among the first `n` whose recorded answer is the correct option. */
  function CorrectCount(quiz: seq<QuizQuestion>, answers: map<int, int>, n: nat): (c: nat)
    requires n <= |quiz|
    ensures c <= n
  {
    if n == 0 then 0
    else CorrectCount(quiz, answers, n - 1)
         + (if n - 1 in answers && answers[n - 1] == quiz[n - 1].correctIndex then 1 else 0)
  }

  /**
   * What the quiz fields of a lesson always satisfy: the pointer lies within the
   * quiz, exactly the questions before it have answers, and the score counts the
   * correct ones among them.
   */
  ghost predicate QuizInvariant(s: EduState) {
    && 0 <= s.currentQIndex <= |s.quizData|
    && (forall k :: k in s.userAnswers <==> 0 <= k < s.currentQIndex)
    && s.score == CorrectCount(s.quizData, s.userAnswers, s.currentQIndex)
  }

  /** The invariant bounds the score by the pointer and the pointer by the quiz length. */
  lemma InvariantBounds(s: EduState)
    requires QuizInvariant(s)
    ensures 0 <= s.score <= s.currentQIndex <= |s.quizData|
  {
  }

  /** Recording an answer at or after position `n` does not change the count below `n`. */
  lemma {:induction false} CorrectCountUnaffected(quiz: seq<QuizQuestion>, answers: map<int, int>, n: nat, k: int, a: int)
    requires n <= |quiz| && k >= n
    ensures CorrectCount(quiz, answers[k := a], n) == CorrectCount(quiz, answers, n)
  {
    if n > 0 {
      CorrectCountUnaffected(quiz, answers, n - 1, k, a);
    }
  }

  /**
   * Answering the question under the pointer with option `a` keeps the invariant:
   * the pointer moves one on, the answer is recorded there, and the score rises by
   * one exactly when `a` is that question's correct option.
   */
  lemma AnswerKeepsInvariant(s: EduState, a: int)
    requires QuizInvariant(s) && s.currentQIndex < |s.quizData|
    ensures var q := s.currentQIndex;
      QuizInvariant(s.(
        score := s.score + (if a == s.quizData[q].correctIndex then 1 else 0),
        currentQIndex := q + 1,
        userAnswers := s.userAnswers[q := a]))
  {
    var q := s.currentQIndex;
    CorrectCountUnaffected(s.quizData, s.userAnswers, q, q, a);
  }
}
