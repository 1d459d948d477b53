/** The mock-test screen: loading the paper, Next and Previous, completion on
    timer expiry, and the "time taken" figure on the result card. */
module MockTest {
  import opened Wrappers
  import opened Mcq
  import opened JsMath
  import Navigation
  import QuizState
  import MockTimer

  datatype Screen = Screen(pane: Navigation.Pane, isLoading: bool, timer: MockTimer.Timer)

  /** Mount: results hidden, loading, empty session, full timer. */
  const Mounted := Screen(Navigation.Pane(false, QuizState.Initial), true, MockTimer.Initial)

  datatype Outcome = Ready(screen: Screen) | BackHome(toast: string)

  const NO_MCQS := "No MCQs available for mock test"
  const LOAD_FAILED := "Failed to start mock test"

  /** `loadMockTest()` with the fetch result. A thrown fetch or an empty list
      returns home with a toast; otherwise the session is loaded in mock mode
      at index 0, and the delayed `clearTimer` restores the full four hours. */
  function Load(s: Screen, fetched: Fetched): (r: Outcome)
    ensures r.Ready? <==> fetched.Items? && |fetched.questions| > 0
    ensures fetched.Thrown? ==> r == BackHome(if fetched.message != "" then fetched.message else LOAD_FAILED)
    ensures fetched.Items? && fetched.questions == [] ==> r == BackHome(NO_MCQS)
    ensures r.Ready? ==>
      && r.screen.pane.quiz.questions == fetched.questions
      && r.screen.pane.quiz.isMock && r.screen.pane.quiz.index == 0
      && r.screen.pane.quiz.score == 0 && r.screen.pane.quiz.attempted == 0
      && |r.screen.pane.quiz.answers| == |fetched.questions|
      && (forall i :: 0 <= i < |r.screen.pane.quiz.answers| ==> r.screen.pane.quiz.answers[i].None?)
      && r.screen.timer.remainingMs == MockTimer.TOTAL_MS
      && !r.screen.isLoading && !r.screen.pane.showResults
  {
    match fetched
    case Thrown(m) => BackHome(if m != "" then m else LOAD_FAILED)
    case Items(qs) =>
      if |qs| == 0 then BackHome(NO_MCQS)
      else
        var quiz := QuizState.HandleMcqData(s.pane.quiz, qs, "", QuizState.MOCK_SUBJECT);
        Ready(Screen(Navigation.Pane(false, quiz.(isMock := true, index := 0)), false, MockTimer.ClearTimer(s.timer)))
  }

  /** The expiry effect fires only after loading, with a non-empty paper, once
      the remaining time has reached zero. */
  predicate Expired(s: Screen) {
    !s.isLoading && s.timer.remainingMs <= 0 && |s.pane.quiz.questions| > 0
  }

  function ExpiryEffect(s: Screen): (r: Screen)
    ensures r.pane.showResults <==> s.pane.showResults || Expired(s)
    ensures Expired(s) ==> r.timer == MockTimer.ClearTimer(s.timer)
    ensures !Expired(s) ==> r == s
    ensures r.pane.quiz == s.pane.quiz && r.isLoading == s.isLoading
  {
    if Expired(s) then s.(pane := s.pane.(showResults := true), timer := MockTimer.ClearTimer(s.timer)) else s
  }

  /** `handleNext()`: the screens' move, except that at the last question
      the timer is cleared as the results show. */
  function Next(s: Screen): (r: Screen)
    ensures s.pane.quiz.index + 1 < |s.pane.quiz.questions| ==> r == s.(pane := s.pane.(quiz := s.pane.quiz.(index := s.pane.quiz.index + 1)))
    ensures s.pane.quiz.index + 1 >= |s.pane.quiz.questions| ==>
      r == s.(pane := s.pane.(showResults := true), timer := MockTimer.ClearTimer(s.timer))
  {
    match Navigation.Next(s.pane.quiz.index, |s.pane.quiz.questions|)
    case Advance(_) => s.(pane := Navigation.NextPane(s.pane))
    case ShowResults => s.(pane := Navigation.NextPane(s.pane), timer := MockTimer.ClearTimer(s.timer))
  }

  /** Next and Previous (`handlePrevious()`, the screens' move) keep the
      cursor on a question. */
  lemma CursorStaysInRange(s: Screen)
    requires s.pane.quiz.index < |s.pane.quiz.questions|
    ensures Next(s).pane.quiz.index < |s.pane.quiz.questions|
    ensures Navigation.PreviousPane(s.pane).quiz.index < |s.pane.quiz.questions|
  {
    Navigation.PaneMovesKeepCursor(s.pane);
  }

  /** "Review Your Answers" from the result card: back to the first question,
      with the timer kept. */
  function OnReview(s: Screen): (r: Screen)
    ensures !r.pane.showResults && r.pane.quiz.index == 0
    ensures r.pane.quiz.answers == s.pane.quiz.answers && r.timer == s.timer && r.isLoading == s.isLoading
  {
    s.(pane := Navigation.ReviewPane(s.pane))
  }

  /** `Math.max(0, Math.round((totalMs - remainingMs) / 60000))`. */
  function TimeTaken(remainingMs: int): (r: int)
    ensures r >= 0
    ensures MockTimer.TOTAL_MS - remainingMs >= 0 ==>
      2 * 60000 * r - 60000 <= 2 * (MockTimer.TOTAL_MS - remainingMs) < 2 * 60000 * r + 60000
  {
    Max(0, RoundDiv(MockTimer.TOTAL_MS - remainingMs, 60000))
  }

  /** Time taken is 0 at the start, 240 minutes when the clock has run out,
      and grows as the remaining time shrinks. */
  lemma TimeTakenRange(remainingMs: int, later: int)
    requires 0 <= later <= remainingMs <= MockTimer.TOTAL_MS
    ensures TimeTaken(MockTimer.TOTAL_MS) == 0
    ensures TimeTaken(0) == 240
    ensures TimeTaken(remainingMs) <= TimeTaken(later) <= 240
  {
    RoundDivUnique(0, 60000, 0);
    RoundDivUnique(MockTimer.TOTAL_MS, 60000, 240);
    RoundDivMonotone(MockTimer.TOTAL_MS - remainingMs, MockTimer.TOTAL_MS - later, 60000);
    RoundDivMonotone(MockTimer.TOTAL_MS - later, MockTimer.TOTAL_MS, 60000);
  }

  /** The figure the result card shows: computed from the timer at render time. */
  function ShownTimeTaken(s: Screen): int {
    TimeTaken(s.timer.remainingMs)
  }

  /** The discrepancy: both ways of finishing clear the timer in the same
      handler that shows the results, so the card always reports 0 minutes. */
  lemma FinishReportsZero(s: Screen)
    ensures s.pane.quiz.index + 1 >= |s.pane.quiz.questions| ==> ShownTimeTaken(Next(s)) == 0
    ensures Expired(s) ==> ShownTimeTaken(ExpiryEffect(s)) == 0
  {
    RoundDivUnique(0, 60000, 0);
  }

  /** The evidently intended completion: the minutes are taken from the timer
      before it is cleared, and the card shows them. */
  datatype Finished = Finished(screen: Screen, takenMinutes: int)

  function FinishCorrected(s: Screen): (r: Finished)
    ensures r.screen == s.(pane := s.pane.(showResults := true), timer := MockTimer.ClearTimer(s.timer))
    ensures r.takenMinutes == TimeTaken(s.timer.remainingMs)
  {
    Finished(s.(pane := s.pane.(showResults := true), timer := MockTimer.ClearTimer(s.timer)), TimeTaken(s.timer.remainingMs))
  }

  /** With the correction, finishing on expiry reports the full 240 minutes,
      and finishing early reports the minutes actually used. */
  lemma FinishCorrectedReportsElapsed(s: Screen)
    requires 0 <= s.timer.remainingMs <= MockTimer.TOTAL_MS
    ensures s.timer.remainingMs == 0 ==> FinishCorrected(s).takenMinutes == 240
    ensures s.timer.remainingMs <= MockTimer.TOTAL_MS - 30000 ==> FinishCorrected(s).takenMinutes >= 1
  {
    RoundDivUnique(MockTimer.TOTAL_MS, 60000, 240);
    if s.timer.remainingMs <= MockTimer.TOTAL_MS - 30000 {
      RoundDivUnique(30000, 60000, 1);
      RoundDivMonotone(30000, MockTimer.TOTAL_MS - s.timer.remainingMs, 60000);
    }
  }
}
