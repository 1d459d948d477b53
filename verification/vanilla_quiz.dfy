/** The vanilla quiz page (static/js/script.js): its global counters, the
    loaders' validation, answering, the cursor moves, the final summary and
    the review status. Unlike the React card, an answered question stays
    clickable here, and a question without a key shows Next at once. */
module VanillaQuiz {
  import opened Wrappers
  import opened Mcq
  import Text
  import QuizState
  import ResultsView

  /** The page's globals. */
  datatype Globals = Globals(
    index: nat,
    questions: seq<Question>,
    score: int,
    attempted: int,
    validQuestions: nat,
    answers: seq<Answer>)

  /** `resetState()`. */
  function ResetState(): (r: Globals)
    ensures r.index == 0 && r.score == 0 && r.attempted == 0 && r.validQuestions == 0
    ensures r.questions == [] && r.answers == []
  {
    Globals(0, [], 0, 0, 0, [])
  }

  /** The number of questions with a truthy key (`filter(q => q.correct_answer)`). */
  function KeyedCount(qs: seq<Question>): (r: nat)
    ensures r <= |qs|
    ensures r == |qs| <==> forall i :: 0 <= i < |qs| ==> Truthy(qs[i].correctAnswer)
    ensures r == 0 <==> forall i :: 0 <= i < |qs| ==> !Truthy(qs[i].correctAnswer)
    decreases |qs|
  {
    if qs == [] then 0
    else
      var init := qs[..|qs| - 1];
      assert forall i :: 0 <= i < |init| ==> init[i] == qs[i];
      KeyedCount(init) + (if Truthy(qs[|qs| - 1].correctAnswer) then 1 else 0)
  }

  /** `handleMCQData(data)`: the counters are left alone, since both loaders
      call `resetState()` first. */
  function HandleMcqData(g: Globals, data: seq<Question>): (r: Globals)
    ensures r.questions == data && r.index == 0
    ensures r.validQuestions == KeyedCount(data)
    ensures |r.answers| == |data| && forall i :: 0 <= i < |data| ==> r.answers[i].None?
    ensures r.score == g.score && r.attempted == g.attempted
  {
    g.(questions := data, validQuestions := KeyedCount(data), index := 0, answers := NullAnswers(|data|))
  }

  /** `selectOption(element, selected, correct)`: `correct` is the key as
      interpolated into the click handler, which exists only for a keyed
      question. */
  function SelectOption(g: Globals, selected: string, correct: string): (r: Globals)
    ensures r.attempted == g.attempted + 1
    ensures r.score == g.score + (if selected == correct then 1 else 0)
    ensures |r.answers| == if g.index < |g.answers| then |g.answers| else g.index + 1
    ensures r.answers[g.index] == Some(selected)
    ensures forall j :: 0 <= j < |g.answers| && j != g.index ==> r.answers[j] == g.answers[j]
    ensures r.index == g.index && r.questions == g.questions && r.validQuestions == g.validQuestions
  {
    g.(attempted := g.attempted + 1,
       answers := QuizState.SetSlot(g.answers, g.index, Some(selected)),
       score := if selected == correct then g.score + 1 else g.score)
  }

  /** Answering keeps the score within the attempts; but since answered
      questions stay clickable, answering the same keyed question twice
      scores twice, so the score can exceed the number of questions. */
  lemma ReanswerScoresAgain(g: Globals, key: string)
    requires 0 <= g.score <= g.attempted
    ensures var g' := SelectOption(SelectOption(g, key, key), key, key);
      && 0 <= g'.score <= g'.attempted
      && g'.score == g.score + 2 && g'.answers[g.index] == Some(key)
  {
  }

  /** What a move displays: the question with its review flag, the final
      results, or nothing. */
  datatype Shown = ShowQuestion(g: Globals, review: bool) | FinalResults(summary: Summary) | Nothing

  /** The slot at i is "not null" (`userAnswers[i] !== null`): a missing slot
      reads as undefined, which is not null. */
  predicate SlotSet(answers: seq<Answer>, i: nat) {
    i >= |answers| || answers[i].Some?
  }

  /** `previousQuestion()`: steps back into review, or does nothing at 0. */
  function PreviousQuestion(g: Globals): (r: Shown)
    ensures g.index > 0 ==> r == ShowQuestion(g.(index := g.index - 1), true)
    ensures g.index == 0 ==> r == Nothing
  {
    if g.index > 0 then ShowQuestion(g.(index := g.index - 1), true) else Nothing
  }

  /** `nextQuestion()`: advances, entering review iff the new slot is set, or
      shows the final results at the last question. */
  function NextQuestion(g: Globals): (r: Shown)
    requires |g.answers| <= |g.questions|
    ensures g.index + 1 < |g.questions| ==> r == ShowQuestion(g.(index := g.index + 1), SlotSet(g.answers, g.index + 1))
    ensures g.index + 1 >= |g.questions| ==> r == FinalResults(Final(g))
  {
    if g.index < |g.questions| - 1 then ShowQuestion(g.(index := g.index + 1), SlotSet(g.answers, g.index + 1))
    else FinalResults(Final(g))
  }

  /** The final summary: "correct/answered", the percentage, and
      "answered/total". */
  datatype Summary = Summary(correct: nat, answered: nat, percentage: int, total: nat)

  /** `showFinalResults()`: the same counting as the React results view. */
  function Final(g: Globals): (r: Summary)
    requires |g.answers| <= |g.questions|
    ensures r.answered == ResultsView.TotalAnswered(g.answers)
    ensures r.correct == ResultsView.CorrectAnswers(g.questions, g.answers)
    ensures r.percentage == ResultsView.Percentage(r.correct, r.answered)
    ensures r.total == |g.questions| && r.answered <= r.total
  {
    var answered := ResultsView.TotalAnswered(g.answers);
    var correct := ResultsView.CorrectAnswers(g.questions, g.answers);
    Summary(correct, answered, ResultsView.Percentage(correct, answered), |g.questions|)
  }

  datatype Status = NotAttempted | Correct | Incorrect

  /** The review list's status of one question. */
  function ReviewStatus(answer: Answer, key: Option<string>): (r: Status)
    ensures r == NotAttempted <==> !Truthy(answer)
    ensures r == Correct <==> Truthy(answer) && answer == key
    ensures r == Incorrect <==> Truthy(answer) && answer != key
  {
    if !Truthy(answer) then NotAttempted else if answer == key then Correct else Incorrect
  }

  /** A question's options carry a click handler iff the question is keyed,
      whether or not it was answered; Next is visible on render iff the slot
      is set or the question is keyless. */
  predicate OptionsClickable(q: Question) {
    HasCorrectAnswer(q)
  }

  function NextShownOnRender(g: Globals): (r: bool)
    requires g.index < |g.questions|
    ensures !HasCorrectAnswer(g.questions[g.index]) ==> r
    ensures HasCorrectAnswer(g.questions[g.index]) ==> (r <==> SlotSet(g.answers, g.index))
  {
    SlotSet(g.answers, g.index) || !HasCorrectAnswer(g.questions[g.index])
  }

  /** On the vanilla page a rendered question is never a dead end: Next is
      shown or an option click records an answer (after which it is). */
  lemma NeverStuck(g: Globals, key: string)
    requires g.index < |g.questions|
    ensures NextShownOnRender(g) || OptionsClickable(g.questions[g.index])
    ensures OptionsClickable(g.questions[g.index]) ==>
      NextShownOnRender(SelectOption(g, key, g.questions[g.index].correctAnswer.value))
  {
  }

  // ---------------------------------------------------------------------------
  // Loaders

  /** A non-empty message. */
  type Message = s: string | s != "" witness "error"

  /** The decoded JSON body: null, an object with an `error` message, or a list. */
  datatype Body = NullBody | ErrorBody(error: Message) | ListBody(items: seq<Question>)

  /** The exam loader checks `response.ok` first. */
  datatype ExamResponse = NotOk(status: int) | Ok(body: Body)

  datatype Loaded = Started(g: Globals) | Failed(message: string)

  const NO_EXAM_MCQS := "No MCQs available for this exam month yet."

  /** `loadExamDate(month)`: reset, fetch, reject a bad status, a null body,
      an error object or an empty list, else start the list. */
  function LoadExamDate(response: ExamResponse): (r: Loaded)
    ensures r.Started? <==> response.Ok? && response.body.ListBody? && |response.body.items| > 0
    ensures response.NotOk? ==> r == Failed("HTTP error! status: " + Text.IntToString(response.status))
    ensures response.Ok? && response.body.ErrorBody? ==> r == Failed(response.body.error)
    ensures response.Ok? && (response.body.NullBody? || response.body == ListBody([])) ==> r == Failed(NO_EXAM_MCQS)
    ensures r.Started? ==> r.g == HandleMcqData(ResetState(), response.body.items) && r.g.score == 0
  {
    match response
    case NotOk(status) => Failed("HTTP error! status: " + Text.IntToString(status))
    case Ok(NullBody) => Failed(NO_EXAM_MCQS)
    case Ok(ErrorBody(e)) => Failed(e)
    case Ok(ListBody(items)) => if |items| == 0 then Failed(NO_EXAM_MCQS) else Started(HandleMcqData(ResetState(), items))
  }

  /** Reading `.error` of a null body throws a TypeError. */
  datatype SubjectLoaded = SubjectStarted(g: Globals) | SubjectFailed(message: string) | NullBodyTypeError

  /** `loadSubject(subject)`: no status check; only an error object is
      rejected, and an empty list starts an empty session. */
  function LoadSubject(body: Body): (r: SubjectLoaded)
    ensures r.SubjectStarted? <==> body.ListBody?
    ensures body.ErrorBody? ==> r == SubjectFailed(body.error)
    ensures body.NullBody? ==> r == NullBodyTypeError
    ensures r.SubjectStarted? ==> r.g == HandleMcqData(ResetState(), body.items)
  {
    match body
    case NullBody => NullBodyTypeError
    case ErrorBody(e) => SubjectFailed(e)
    case ListBody(items) => SubjectStarted(HandleMcqData(ResetState(), items))
  }
}
