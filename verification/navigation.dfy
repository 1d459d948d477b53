/** The cursor moves shared by the three React quiz screens and the vanilla
    script: Next either advances or ends in the results screen, Previous
    never leaves index 0. */
module Navigation {
  import QuizState

  datatype Move = Advance(index: nat) | ShowResults

  /** `if (index < n - 1) index + 1 else show results`. */
  function Next(index: nat, n: nat): (r: Move)
    ensures r.Advance? <==> index + 1 < n
    ensures r.Advance? ==> r.index == index + 1
  {
    if index < n - 1 then Advance(index + 1) else ShowResults
  }

  /** `if (index > 0) index - 1`, otherwise nothing happens. */
  function Previous(index: nat): (r: nat)
    ensures index > 0 ==> r + 1 == index
    ensures index == 0 ==> r == 0
  {
    if index > 0 then index - 1 else index
  }

  /** Both moves keep a valid cursor valid, and Next from the last question is
      the only way to reach the results. */
  lemma MovesStayInRange(index: nat, n: nat)
    requires index < n
    ensures Previous(index) < n
    ensures Next(index, n).Advance? ==> Next(index, n).index < n
    ensures Next(index, n).ShowResults? <==> index == n - 1
  {
  }

  /** What the React screens' cursor handlers touch: the results flag each
      screen keeps, and the session of `useQuizState`. */
  datatype Pane = Pane(showResults: bool, quiz: QuizState.Session)

  /** `handleNext()` of the exam-month and subject screens: advance, or at
      the last question show the results and leave the cursor where it is. */
  function NextPane(p: Pane): (r: Pane)
    ensures p.quiz.index + 1 < |p.quiz.questions| ==> r == p.(quiz := p.quiz.(index := p.quiz.index + 1))
    ensures p.quiz.index + 1 >= |p.quiz.questions| ==> r == p.(showResults := true)
  {
    match Next(p.quiz.index, |p.quiz.questions|)
    case Advance(i) => p.(quiz := p.quiz.(index := i))
    case ShowResults => p.(showResults := true)
  }

  /** `handlePrevious()` of every React screen. */
  function PreviousPane(p: Pane): (r: Pane)
    ensures p.quiz.index > 0 ==> r == p.(quiz := p.quiz.(index := p.quiz.index - 1))
    ensures p.quiz.index == 0 ==> r == p
  {
    p.(quiz := p.quiz.(index := Previous(p.quiz.index)))
  }

  /** The results' Review button: leave the results at the first question. */
  function ReviewPane(p: Pane): (r: Pane)
    ensures !r.showResults && r.quiz.index == 0
    ensures r.quiz.answers == p.quiz.answers && r.quiz.questions == p.quiz.questions
  {
    p.(showResults := false, quiz := p.quiz.(index := 0))
  }

  /** The screens' Next and Previous keep the cursor on a question, and
      Previous undoes a Next that did not finish. */
  lemma PaneMovesKeepCursor(p: Pane)
    requires p.quiz.index < |p.quiz.questions|
    ensures NextPane(p).quiz.index < |p.quiz.questions|
    ensures PreviousPane(p).quiz.index < |p.quiz.questions|
    ensures !NextPane(p).showResults ==> PreviousPane(NextPane(p)) == p
  {
  }

  /** Previous undoes an advancing Next. */
  lemma PreviousUndoesNext(index: nat, n: nat)
    requires Next(index, n).Advance?
    ensures Previous(Next(index, n).index) == index
  {
  }
}
