/** The exam-month screen: which (year, month) the props effect loads,
    validation of the fetched list, and the cursor moves. */
module ExamWise {
  import opened Wrappers
  import opened Mcq
  import Text
  import Navigation
  import QuizState

  datatype Screen = Screen(year: Option<int>, month: Option<string>, pane: Navigation.Pane)

  predicate TruthyYear(y: Option<int>) { y.Some? && y.value != 0 }

  /** First render: the state is initialised from the props
      (`useState(propYear || null)`). */
  function Mount(propYear: Option<int>, propMonth: Option<string>): (r: Screen)
    ensures TruthyYear(propYear) ==> r.year == propYear
    ensures Truthy(propMonth) ==> r.month == propMonth
    ensures r.pane.quiz == QuizState.Initial && !r.pane.showResults
  {
    Screen(if TruthyYear(propYear) then propYear else None,
           if Truthy(propMonth) then propMonth else None,
           Navigation.Pane(false, QuizState.Initial))
  }

  /** The props effect as written: the (year, month) it loads, if any. */
  function ReloadTarget(propYear: Option<int>, propMonth: Option<string>, s: Screen): (r: Option<(int, string)>)
    ensures TruthyYear(propYear) && Truthy(propMonth) ==>
      (r.Some? <==> propYear != s.year || propMonth != s.month)
    ensures TruthyYear(propYear) && Truthy(propMonth) && r.Some? ==> r.value == (propYear.value, propMonth.value)
    ensures !(TruthyYear(propYear) && Truthy(propMonth)) ==>
      (r.Some? <==> TruthyYear(s.year) && Truthy(s.month) && |s.pane.quiz.questions| == 0)
  {
    if TruthyYear(propYear) && Truthy(propMonth) then
      if propYear != s.year || propMonth != s.month then Some((propYear.value, propMonth.value)) else None
    else if TruthyYear(s.year) && Truthy(s.month) && |s.pane.quiz.questions| == 0 then
      Some((s.year.value, s.month.value))
    else None
  }

  /** The discrepancy: the state starts equal to the props, so the effect that
      runs after mounting finds nothing changed, and the chosen month is
      never fetched. */
  lemma MountNeverLoads(propYear: Option<int>, propMonth: Option<string>)
    requires TruthyYear(propYear) && Truthy(propMonth)
    ensures ReloadTarget(propYear, propMonth, Mount(propYear, propMonth)).None?
  {
  }

  /** The evidently intended effect, as SubjectWise has it: also load the
      current selection when nothing is loaded yet. */
  function ReloadTargetCorrected(propYear: Option<int>, propMonth: Option<string>, s: Screen): (r: Option<(int, string)>)
    ensures r.Some? <==>
      || (TruthyYear(propYear) && Truthy(propMonth) && (propYear != s.year || propMonth != s.month))
      || (TruthyYear(s.year) && Truthy(s.month) && |s.pane.quiz.questions| == 0)
  {
    if TruthyYear(propYear) && Truthy(propMonth) && (propYear != s.year || propMonth != s.month) then
      Some((propYear.value, propMonth.value))
    else if TruthyYear(s.year) && Truthy(s.month) && |s.pane.quiz.questions| == 0 then
      Some((s.year.value, s.month.value))
    else None
  }

  /** With the correction, mounting with a chosen month loads exactly it, and
      a change of props is still honoured as before. */
  lemma CorrectedMountLoads(propYear: Option<int>, propMonth: Option<string>, s: Screen)
    requires TruthyYear(propYear) && Truthy(propMonth)
    ensures ReloadTargetCorrected(propYear, propMonth, Mount(propYear, propMonth)) == Some((propYear.value, propMonth.value))
    ensures ReloadTarget(propYear, propMonth, s).Some? ==>
      ReloadTargetCorrected(propYear, propMonth, s) == ReloadTarget(propYear, propMonth, s)
  {
  }

  datatype Outcome = Ready(screen: Screen) | BackHome(toast: string)

  const LOAD_FAILED := "Failed to load MCQs"

  function UpdatedSoon(year: int): string {
    "This Month's MCQs for " + Text.IntToString(year) + " will be updated soon"
  }

  /** `loadExamDate(year, month)` with the fetch result. An empty list is an
      error; a list starts a non-mock session whose saved context is the
      month label "month year". */
  function Load(s: Screen, year: int, month: string, fetched: Fetched): (r: Outcome)
    ensures r.Ready? <==> fetched.Items? && |fetched.questions| > 0
    ensures fetched.Thrown? ==> r == BackHome(if fetched.message != "" then fetched.message else LOAD_FAILED)
    ensures fetched.Items? && fetched.questions == [] ==> r == BackHome(UpdatedSoon(year))
    ensures r.Ready? ==>
      && r.screen.year == Some(year) && r.screen.month == Some(month)
      && r.screen.pane.quiz == QuizState.HandleMcqData(s.pane.quiz, fetched.questions, SessionMonth(year, month), "")
      && !r.screen.pane.quiz.isMock && r.screen.pane.quiz.index == 0
  {
    match fetched
    case Thrown(m) => BackHome(if m != "" then m else LOAD_FAILED)
    case Items(qs) =>
      if |qs| == 0 then BackHome(UpdatedSoon(year))
      else
        var quiz := QuizState.HandleMcqData(s.pane.quiz, qs, SessionMonth(year, month), "");
        Ready(s.(year := Some(year), month := Some(month), pane := s.pane.(quiz := quiz.(isMock := false))))
  }

  /** `${month} ${year}`, passed to the session as its month. */
  function SessionMonth(year: int, month: string): string {
    month + " " + Text.IntToString(year)
  }

  /** The saved context label of an exam session is "month:" + "month year". */
  lemma LoadedLabel(year: int, month: string)
    ensures QuizState.ContextLabel(SessionMonth(year, month), "") == "month:" + month + " " + Text.IntToString(year)
  {
  }

  /** k presses of Next. */
  function Walk(p: Navigation.Pane, k: nat): Navigation.Pane
    decreases k
  {
    if k == 0 then p else Walk(Navigation.NextPane(p), k - 1)
  }

  /** From any question, pressing Next until the last question passes every
      later question in order without showing the results, and one more
      press shows them: after a review the results are reached again. */
  lemma {:induction false} WalkToResults(p: Navigation.Pane, k: nat)
    requires p.quiz.index + k + 1 == |p.quiz.questions|
    ensures Walk(p, k).quiz.index == p.quiz.index + k
    ensures Walk(p, k).showResults == p.showResults
    ensures Walk(p, k).quiz.answers == p.quiz.answers
    ensures Navigation.NextPane(Walk(p, k)).showResults
    decreases k
  {
    if k > 0 {
      WalkToResults(Navigation.NextPane(p), k - 1);
    }
  }
}
