/** The question card of the React screens: the answer-locking click guard,
    the option classes, the header counter and the navigation buttons. The
    card sees the current question and the value of its answer slot. */
module McqView {
  import opened Wrappers
  import opened Mcq
  import QuizState

  /** Review mode: the slot already holds an answer (`userAnswer !== null`). */
  predicate IsReview(answer: Answer) {
    answer.Some?
  }

  /** `handleOptionClick(key)`: the (selected, correct) pair forwarded to the
      screen, or None when the click is ignored. */
  function OnOptionClick(q: Question, answer: Answer, key: string): (r: Option<(string, Option<string>)>)
    ensures r.Some? <==> HasCorrectAnswer(q) && !IsReview(answer)
    ensures r.Some? ==> r.value == (key, q.correctAnswer)
  {
    if !HasCorrectAnswer(q) || IsReview(answer) then None else Some((key, q.correctAnswer))
  }

  /** Clicking through the card sets a slot at most once: after a forwarded
      click the slot is in review, and every later click is ignored. */
  lemma SlotSetAtMostOnce(s: QuizState.Session, key: string, key': string)
    requires s.index < |s.questions| && s.index < |s.answers|
    requires OnOptionClick(s.questions[s.index], s.answers[s.index], key).Some?
    ensures var (sel, correct) := OnOptionClick(s.questions[s.index], s.answers[s.index], key).value;
      var s' := QuizState.SelectOption(s, sel, correct);
      && s'.answers[s'.index] == Some(key)
      && OnOptionClick(s'.questions[s'.index], s'.answers[s'.index], key').None?
  {
  }

  /** `getOptionClass(key)` as its list of class tokens. */
  function OptionClass(q: Question, answer: Answer, key: string): (r: seq<string>)
    ensures |r| >= 1 && r[0] == "option"
    ensures "disabled" in r <==> !HasCorrectAnswer(q) || IsReview(answer)
    ensures "incorrect" in r <==> Truthy(answer) && answer == Some(key) && answer != q.correctAnswer
    ensures "correct" in r <==> Truthy(answer) && q.correctAnswer == Some(key)
  {
    var chosen := if Truthy(answer) && Some(key) == answer then
                    [if answer == q.correctAnswer then "correct" else "incorrect"] else [];
    var keyed := if Truthy(answer) && Some(key) == q.correctAnswer then ["correct"] else [];
    var noKey := if !HasCorrectAnswer(q) then ["disabled"] else [];
    var review := if IsReview(answer) then ["disabled"] else [];
    ["option"] + chosen + keyed + noKey + review
  }

  /** `{index + 1}/{isMockTest ? 200 : mcqs.length}`. */
  function Header(index: nat, count: nat, isMock: bool): (r: (nat, nat))
    ensures r.0 == index + 1
    ensures isMock ==> r.1 == 200
    ensures !isMock ==> r.1 == count
  {
    (index + 1, if isMock then 200 else count)
  }

  datatype NavButtons = NavButtons(previousShown: bool, nextShown: bool, nextLabel: string)

  const SHOW_RESULTS := "Show Results →"
  const NEXT_QUESTION := "Next Question →"

  /** The navigation buttons as written: Previous hidden at index 0, Next
      shown only once the slot holds an answer, labelled for the results at
      the last index. */
  function Nav(index: nat, count: nat, answer: Answer): (r: NavButtons)
    ensures r.previousShown <==> index != 0
    ensures r.nextShown <==> answer.Some?
    ensures r.nextLabel == SHOW_RESULTS <==> index == count - 1
    ensures r.nextLabel == SHOW_RESULTS || r.nextLabel == NEXT_QUESTION
  {
    NavButtons(index != 0, answer.Some?, if index == count - 1 then SHOW_RESULTS else NEXT_QUESTION)
  }

  /** The discrepancy: a question whose key is blank can never be answered
      through the card, so its slot stays null and Next stays hidden; at the
      first question nothing leads forward at all. */
  lemma KeylessQuestionBlocks(q: Question, count: nat, key: string)
    requires !HasCorrectAnswer(q)
    ensures OnOptionClick(q, None, key).None?
    ensures !Nav(0, count, None).nextShown && !Nav(0, count, None).previousShown
  {
  }

  /** The evidently intended buttons, as the vanilla page has them: Next is
      also shown straight away for a question that cannot be answered. */
  function NavCorrected(q: Question, index: nat, count: nat, answer: Answer): (r: NavButtons)
    ensures r.previousShown <==> index != 0
    ensures r.nextShown <==> answer.Some? || !HasCorrectAnswer(q)
    ensures r.nextLabel == Nav(index, count, answer).nextLabel
  {
    var n := Nav(index, count, answer);
    n.(nextShown := n.nextShown || !HasCorrectAnswer(q))
  }

  /** With the corrected buttons every card offers a way forward: either Next
      is shown, or any option click is forwarded (after which it is). */
  lemma CorrectedAlwaysProgresses(q: Question, index: nat, count: nat, answer: Answer, key: string)
    ensures NavCorrected(q, index, count, answer).nextShown || OnOptionClick(q, answer, key).Some?
    ensures OnOptionClick(q, answer, key).Some? ==>
      NavCorrected(q, index, count, Some(OnOptionClick(q, answer, key).value.0)).nextShown
  {
  }
}
