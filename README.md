# EduBot lesson core in Dafny

EduBot is a Telegram tutoring bot. `/learn <topic>` starts a lesson for a user. A small
workflow graph then runs: the explainer writes an explanation and the quiz generator
writes a multiple-choice quiz, and the feedback node writes a comment and a
recommendation. The bot asks the questions one at a time as inline buttons and scores
each button press. Lesson state is kept per user by the graph's checkpointer.

This project models the decision logic of that core and proves properties about it:

- `pystr.dfy`: the Python string operations the core relies on, following CPython's
  behaviour (the integer-size limit of `int()`/`str()` is not modelled, see below).
  - `str.strip` uses Python's whitespace set, the characters `str.isspace()` accepts.
  - `int()` skips a smaller set at the ends: the same set without the four ASCII
    separators U+001C to U+001F, which CPython's `int()` does not skip.
  - `str.replace(pat, "")` is one left-to-right pass.
  - Also `str.split` on one character, `str.rfind`, `str(int)` and `int(str)`.
- `state.dfy`: the lesson state (`QuizQuestion`, `EduState`) and the quiz invariant every
  stored lesson keeps:
  - the answer pointer lies within the quiz;
  - exactly the questions before the pointer have answers;
  - the score counts the correct answers among them.
- `agents.py` in `agents.dfy`:
  - `clean_and_parse_json` deletes code fences, strips whitespace and cuts prose that
    follows a JSON list or object. Prose in front of the JSON is kept. The decoder is a
    parameter.
  - The three agent nodes and their fallbacks. Each agent receives the generative
    service's reply as a string.
- `graph.py` in `graph.dfy`:
  - the four nodes, the edge set, the entry point and the two routing functions;
  - a walk along the edges, proved to terminate and to keep the invariant.
- `bot.py` in `bot.dfy`:
  - the topic taken from `/learn` and the initial lesson;
  - the button callback data and its parse, with an encode/parse round trip;
  - the answer handler, as a pure step on the per-user store and as an imperative
    method of the `SessionStore` class;
  - `send_next_question`, as a method with a loop that builds the buttons.

Points where the code behaves differently from what a reader might expect:

- `process_quiz_answer` never checks the option index against the question's options
  (src/bot.py:140-154):
  - an out-of-range index such as `ans:0:7` is scored as wrong, or as correct if it
    equals the stored `correct_index`;
  - the index is recorded and the pointer moves on.
  - `Bot.OptionIndexNotRangeChecked` states this.
- `int()` at src/bot.py:115 raises `ValueError` on a number field that is not an
  integer, and nothing in the handler catches it.
  - The model's outcome for this case is `ParseCrash`, and the store is unchanged.
- The workflow is compiled without an interrupt point (src/graph.py:38), and the edge
  out of "human_input" goes to "feedback" unconditionally. So the `astream` call in
  `cmd_learn` (src/bot.py:62) runs the feedback node after the quiz generator,
  before any button is pressed. With a non-empty quiz, "human_input" runs in
  between. The comments at src/bot.py:61 and
  src/bot.py:80-83 describe a pause at the quiz that the graph does not make.
  - `Graph.WalkEndsReset` states this: the run ends at "feedback" with the pointer,
    score and answers as the quiz generator reset them.
  - `Graph.Walk` is the order in which nodes run when nothing pauses.

## Model

| member | source | states |
|---|---|---|
| PyStr.StripSet | src/agents.py:28 | Stripping a set of characters from both ends returns the infix between the leading and the trailing run of them. It is empty exactly when the text consists of them; otherwise it starts and ends outside the set. |
| PyStr.Strip | src/agents.py:28 | `strip()` returns the infix of the text between its leading and trailing whitespace. It is empty exactly when the text is all whitespace; otherwise it starts and ends with a non-space character. |
| PyStr.StripUnchanged | src/agents.py:28 | Text that neither starts nor ends with a character of the stripped set is not changed by stripping. |
| PyStr.StripLeadingBlank | src/bot.py:36 | One blank in front of text without surrounding whitespace is stripped away. |
| PyStr.Remove | src/agents.py:28 | `replace(pat, "")` never lengthens the text, and leaves a text without the pattern's first character as it is. |
| PyStr.RemoveSkip | src/agents.py:28 | `replace(pat, "")` copies through unchanged any prefix where no occurrence of the pattern starts. |
| PyStr.RemoveFence | src/agents.py:28 | A text without the pattern's first character, followed by the pattern: the pass keeps the text and deletes the pattern. |
| PyStr.RemoveUniformLeavesNone | src/agents.py:28 | One pass of `replace("```", "")` leaves no "```" behind, because the pattern is a single repeated character. |
| PyStr.StripHasNone | src/agents.py:28 | Stripping cannot create an occurrence of a pattern. |
| PyStr.InfixHasNone | src/agents.py:33 | A slice of a text without the pattern has no pattern either. |
| PyStr.LastIndex | src/agents.py:32 | `rfind(c)` is -1 exactly when `c` is absent. Otherwise it is a position holding `c`, with no `c` after it. |
| PyStr.Split | src/bot.py:112 | `split(sep)` gives one more part than there are separators. No part holds the separator, and joining the parts with it gives the text back. |
| PyStr.SplitAt | src/bot.py:112 | The first separator ends the first part. |
| PyStr.SplitJoin | src/bot.py:112 | Splitting the join of separator-free parts gives those parts back. |
| PyStr.ParseIntRoundTrip | src/bot.py:115 | `int(str(n)) == n` for every integer `n`, negative numbers included. |
| PyStr.IntToString | src/bot.py:99 | `str(n)` is non-empty and holds only digits, apart from a leading '-' that appears exactly when `n` is negative. In particular it holds no ':'. |
| PyStr.ParseInt | src/bot.py:115 | `int(text)` succeeds exactly when the text, stripped of the whitespace `int()` skips (`isspace()` characters other than U+001C to U+001F), is an optional sign followed by digits with single underscores between digits. The value is that of the digits, underscores skipped, negated exactly when the sign is '-'. |
| PyStr.ParseIntForms | src/bot.py:115 | A natural number written with leading zeros, an optional '+' or '-', and surrounding whitespace that `int()` skips, reads as its signed value (so "+1", "01" and " 1" all read as 1). |
| PyStr.UnitSeparatorNotSkipped | src/bot.py:115 | `strip()` removes a trailing U+001F from "0", but `int()` refuses "0" followed by U+001F. |
| PyStr.ParseSignedRoundTrip | src/bot.py:115 | Reading the sign and digits of `str(n)` gives `n` back. |
| PyStr.NatToStringValue | src/bot.py:99 | The decimal digits written for a natural number read back as that number. |
| State.CorrectCount | src/state.py:22-24 | The number of correct recorded answers among the first `n` questions, never more than `n`. |
| State.InvariantBounds | src/state.py:22-24 | Under the quiz invariant, 0 <= score <= pointer <= number of questions. |
| State.CorrectCountUnaffected | src/bot.py:152 | Recording an answer at or after position `n` leaves the count of correct answers below `n` as it was. |
| State.AnswerKeepsInvariant | src/bot.py:140-154 | Answering the question under the pointer keeps the quiz invariant. The score rises by one exactly when the option is correct, the pointer moves on by one, and the answer is recorded at the old pointer. |
| Agents.Truncate | src/agents.py:31-36 | A text that starts with '[' and holds ']' is cut just after its last ']'. Failing that, one that starts with '{' and holds '}' is cut after its last '}'. Any other text is left as it is. The result is always a prefix. |
| Agents.CleanText | src/agents.py:28 | The cleaned reply holds no "```", including backticks that deleting "```json" pushed together. It has no surrounding whitespace and is no longer than the reply. |
| Agents.ExtractJsonText | src/agents.py:28-36 | The text handed to `json.loads` is a prefix of the cleaned reply, so it holds no "```" either. |
| Agents.CleanAndParseJson | src/agents.py:24-41 | A decode error gives `None` instead of an exception. The decoder is only ever applied to a fence-free text no longer than the reply. |
| Agents.FencingIsTransparent | src/agents.py:24-38 | A backtick-free reply decodes to the same value whether or not it is wrapped in a "```json" … "```" fence. |
| Agents.CleanFencedBody | src/agents.py:28 | A backtick-free body wrapped in a "```json" … "```" fence comes out unwrapped and stripped. |
| Agents.FencedListReachesDecoder | src/agents.py:24-38 | A fenced JSON list reaches the decoder exactly as its stripped body, with nothing cut. |
| Agents.ClosedListKept | src/agents.py:31-33 | A text that opens with '[' and closes with ']' reaches the decoder uncut. |
| Agents.TrailingProseDropped | src/agents.py:31-33 | Prose after a list is cut off before decoding, provided the prose holds no ']'. |
| Agents.ExplainerAgent | src/agents.py:54 | The explainer stores the reply verbatim as the explanation and sets status "explaining". Nothing else changes. |
| Agents.DecodedQuiz | src/agents.py:78-82 | The quiz is empty exactly when decoding fails or gives the empty list. A non-empty quiz is the decoded value. |
| Agents.QuizGeneratorAgent | src/agents.py:78-90 | Installs the decoded quiz, or the empty quiz when decoding fails or yields nothing. Always resets pointer, score and answers and sets "quizzing". Nothing else changes. |
| Agents.QuizGeneratorKeepsInvariant | src/agents.py:84-90 | Whatever the reply, the quiz generator's output satisfies the quiz invariant. |
| Agents.FeedbackData | src/agents.py:116-119 | The object read is never empty. It is the fixed fallback when decoding fails or gives the empty object, and the decoded object otherwise. |
| Agents.FeedbackAgent | src/agents.py:116-125 | An undecodable or empty object gives the fixed fallback message and "RETRY". Otherwise each missing key falls back on "No feedback provided." or "RETRY". Sets status "feedback". Nothing else changes. |
| Agents.RecommendationSource | src/agents.py:118-123 | The recommendation is "RETRY" unless the decoded object names one itself. No value is checked against ADVANCE/RETRY/DEMOTE. |
| Graph.Entry | src/graph.py:31 | The entry point is the node registered as "explainer". |
| Graph.NodeNamed | src/graph.py:9-17 | Node names are registered one-to-one. A name maps to the node registered under it, if there is one. |
| Graph.WaitForUser | src/graph.py:14-15 | The human-input node hands its state on untouched. |
| Graph.RouteQuizLoop | src/graph.py:24-28 | "human_input" exactly when the pointer is before the end of the quiz, and "feedback" otherwise. An empty quiz therefore routes to feedback, given a pointer of at least 0, as the quiz invariant guarantees. |
| Graph.Successor | src/graph.py:31-34 | The edge set. Only "feedback" has no outgoing edge. Every edge strictly lowers a rank, so the graph has no cycle. |
| Graph.RouteAfterExplanation | src/graph.py:21-22 | The unused `route_after_explanation` names the same node as the fixed edge out of "explainer". |
| Graph.QuizGenRoutes | src/graph.py:33 | After "quiz_gen", the run continues to "human_input" when questions remain, and to "feedback" otherwise. |
| Graph.ApplyNode | src/graph.py:9-17 | No node changes the topic or the difficulty. Only the quiz generator changes the quiz, the pointer, the score or the answers. |
| Graph.ApplyNodeKeepsInvariant | src/graph.py:9-17 | Every node's update keeps the quiz invariant of its input. |
| Graph.Walk | src/graph.py:31-34 | Following the edges from any node when nothing pauses terminates. It visits that node first and "feedback" last. |
| Graph.WalkStep | src/graph.py:31-34 | A node with a successor is followed, in the walk, by the walk from that successor on the node's output. |
| Graph.WalkFromFeedback | src/graph.py:34 | A run ends at "feedback", because it has no outgoing edge. The final state is the feedback node's output. |
| Graph.WalkFromHumanInput | src/graph.py:34 | From "human_input" the edges go straight to "feedback", whether or not questions remain. |
| Graph.WalkFromQuizGen | src/graph.py:33-34 | From "quiz_gen" the run visits "human_input" exactly when the generated quiz is non-empty, then ends at "feedback". |
| Graph.WalkFromEntry | src/graph.py:31-34 | From the entry the run visits "explainer" and "quiz_gen", then "human_input" exactly when the quiz is non-empty, then "feedback". The final state is the feedback node's output. |
| Graph.WalkEndsReset | src/agents.py:84-90 | A run from the entry ends with status "feedback" and the decoded quiz. Pointer, score and answers are as the quiz generator reset them, so the feedback node on that path sees no answer. |
| Graph.WalkKeepsInvariant | src/graph.py:31-34 | Every run along the edges keeps the quiz invariant, whatever the replies. |
| Bot.LearnTopic | src/bot.py:36 | A message without text gives no topic. The topic is never longer than the message and has no surrounding whitespace. |
| Bot.InitialState | src/bot.py:45-57 | The topic at "Beginner", "idle", with empty texts, no quiz, pointer and score 0, and no answers. This state satisfies the quiz invariant. |
| Bot.Learn | src/bot.py:36-57 | An empty topic is refused. Otherwise the lesson starts from the documented initial state, which satisfies the quiz invariant. |
| Bot.LearnTopicOfCommand | src/bot.py:36 | "/learn " followed by a topic without surrounding whitespace, in which the pass finds no further "/learn", yields exactly that topic. |
| Bot.LearnFollowUp | src/bot.py:69-72 | After the workflow has run for a new lesson, `cmd_learn` asks a question exactly when the reply decoded to a non-empty quiz. The pointer is then at the first question, which is not finished. |
| Bot.ParseCallback | src/bot.py:111-121 | Empty data gives "No answer data.". "Invalid answer format." is given exactly when the data does not hold exactly two ':'. Otherwise the result is `NotAnInteger` exactly when `int()` fails on the second or the third field, and an answer carrying the two values when both succeed. |
| Bot.IsAnswerCallback | src/bot.py:109 | The dispatcher's `startswith("ans:")` filter. Data that passes it is never empty and holds a ':'. |
| Bot.CallbackData | src/bot.py:99 | Button data always passes the "ans:" filter of the answer handler. |
| Bot.CallbackSplits | src/bot.py:99 | Button data "ans:<q>:<i>" splits into "ans" and the two decimal numbers. |
| Bot.CallbackRoundTrip | src/bot.py:99-115 | The data on every button passes the "ans:" filter and parses back to the question and option it was built from. |
| Bot.PyIndex | src/bot.py:139 | Python indexing of a list. An index in range gives that element, and a negative index from -len to -1 gives the element that many places from the end. Anything else raises. |
| Bot.Lookup | src/bot.py:126-127 | The stored lesson of a user, present exactly when the user has one. |
| Bot.CurrentIndex | src/bot.py:130 | The stored pointer, or the default -1 for an unknown user, which no button of a real question matches. |
| Bot.CurrentQuiz | src/bot.py:135 | The stored quiz, or no questions for an unknown user. |
| Bot.Answered | src/bot.py:143-154 | The update for an answer to the question under the pointer, scored against that question, keeps the quiz invariant. |
| Bot.Judge | src/bot.py:129-154 | The handler after the parse. Every refusal leaves the store unchanged. An unknown user is never accepted. "Old question." is given exactly when the question differs from the stored pointer, which is -1 for an unknown user. For the question under the pointer, "Invalid question index." is given exactly when the quiz is empty or the pointer is at or past its end. The answer is accepted exactly when Python can index the quiz with the pointer. For a non-empty quiz, a pointer below minus the quiz length raises `IndexError`. An accepted answer adds one to the score exactly when the option is the correct one of the question Python's indexing selects (counted from the end for a negative pointer), moves the pointer on by one and records the option. It changes nothing else, for no other user. |
| Bot.AnswerStep | src/bot.py:110-121 | Parse, then judge. "No answer data." is given exactly for empty data, and "Invalid answer format." exactly when the data does not hold two ':'. |
| Bot.JudgeKeepsInvariant | src/bot.py:140-154 | Judging any parsed callback keeps the quiz invariant of every stored lesson. |
| Bot.AnswerStepKeepsInvariant | src/bot.py:140-154 | Every answer step keeps the quiz invariant of every stored lesson. |
| Bot.ReplayKeepsInvariant | src/bot.py:109-154 | Any sequence of callbacks, from any users interleaved in any order, keeps the quiz invariant of every stored lesson. |
| Bot.SeparatorInFieldCrashes | src/bot.py:112-115 | The data "ans:0" + U+001F + ":1" makes `int()` raise, whatever the stored lessons, and the store is unchanged. |
| Bot.UnknownUserDefault | src/bot.py:130-138 | For a user with no stored lesson, data naming question -1 matches the default pointer. It is then refused as "Invalid question index." because the default quiz is empty, and the store is unchanged. |
| Bot.UnknownUserIsStale | src/bot.py:130-132 | A user with no stored lesson gets "Old question." for every button of a real question, and the store is unchanged. |
| Bot.ResubmitIsStale | src/bot.py:130-132 | Pressing an accepted button again is refused as an old question and changes nothing. |
| Bot.FinishedLessonRefuses | src/bot.py:136-138 | Once the pointer is at the end of the quiz, every answer is refused and the store is unchanged. |
| Bot.ButtonIsAccepted | src/bot.py:97-99 | Any button of the question under the pointer is accepted. It is scored against that question and recorded under its index. |
| Bot.OptionIndexNotRangeChecked | src/bot.py:140 | An option index past the last option is accepted, scored, and recorded. |
| Bot.SessionStore.constructor | src/graph.py:37 | The checkpointer starts with no lessons. |
| Bot.SessionStore.StartLesson | src/bot.py:36-57 | The topic is the one `cmd_learn` computes. An empty topic changes nothing. Otherwise the user's lesson becomes the initial state, and the store invariant is kept. |
| Bot.SessionStore.RunNode | src/graph.py:38 | The checkpoint after a node runs is that node's update of the user's lesson. The store invariant is kept. |
| Bot.SessionStore.ProcessQuizAnswer | src/bot.py:110-154 | The imperative handler ends exactly as `AnswerStep` says, with the same outcome and the same new store. It keeps the store invariant. |
| Bot.SendNextQuestion | src/bot.py:74-107 | The feedback branch is taken exactly when the quiz is empty or finished. Otherwise the question under the pointer is asked, counted from the end for a pointer from minus the quiz length to -1, with one button per option, in order. Each button is labelled with its option and carries "ans:<pointer>:<position>". |
| Bot.QuizFinished | src/bot.py:79 | A lesson that is not finished has a question under the pointer or a negative pointer. For a pointer of at least 0, finished means the pointer has reached the end of the quiz. |
| Bot.FinishedAgreesWithRoute | src/bot.py:79 | For a lesson that keeps the invariant, "finished" in the bot agrees with the workflow's routing to "feedback". |

## Left out

- The Telegram side is not modelled: messages, inline keyboards, Markdown, message edits, `/start` and the polling loop. Each handler's visible reply is an outcome value instead.
- The calls to the generative text service are not modelled. Each agent receives the reply string as a parameter, and the prompts are not modelled.
- `json.loads` is a parameter that returns `None` on a decode error. `clean_and_parse_json` catches only `json.JSONDecodeError` (src/agents.py:39). Other exceptions escape and abort the agent, for example a `RecursionError` on deeply nested input. The parameter cannot raise, so the model does not capture them. Its result is assumed to have the structure that the caller indexes:
  - a list of questions for the quiz;
  - an object with string values for the feedback.
  - A decoded value of another shape, or a `correct_index` key missing from a question, is not modelled.
- LangGraph's scheduler, streaming, asynchrony and pause/resume are not modelled.
  - `Bot.SessionStore.RunNode` models only the checkpoint written after a node.
  - `Graph.Walk` is the order of the edges, not a claim about suspension.
- Bot.SessionStore.ProcessQuizAnswer: the edit of the original message after the state update is not modelled. That edit indexes `options[ans_idx]` at src/bot.py:160, and it can raise for a very negative index after the store was already written.
- Bot.SessionStore.ProcessQuizAnswer: the follow-up call to `send_next_question` at src/bot.py:170-172 is not composed into this method. `Bot.SendNextQuestion` models what that call does with the updated state.
- The first call from `cmd_learn` at src/bot.py:70-72 is likewise not composed into `Bot.SessionStore.StartLesson`. Its guard, a non-empty stored quiz (src/bot.py:71), is stated by `Bot.LearnFollowUp`.
- PyStr.ParseInt: only ASCII digits are accepted in the model. Python also accepts other Unicode decimal digits.
- PyStr.ParseIntRoundTrip: CPython refuses to convert integers of more than 4300 decimal digits, in both `int()` and `str()`, with a `ValueError`. The model has no such limit, so the round trip is stated for every integer.
- The error log written when decoding fails (src/agents.py:40) is not modelled. The failure shows only as the `None` result.
- The `messages` field of the lesson state is set to `[]` by `cmd_learn` (src/bot.py:55) but never read by the core. It is omitted from `EduState`.
- A missing user id defaults to 0 in the source. User ids are plain parameters here.
- The startup scripts (`run.py`, `auto_fix.py`) and the configuration module (`src/config.py`) are not part of this model.
