/** The subject screen: which subject the props effect loads, validation of
    the fetched list, and the cursor moves. */
module SubjectWise {
  import opened Wrappers
  import opened Mcq
  import Navigation
  import QuizState

  datatype Screen = Screen(subject: Option<string>, pane: Navigation.Pane)

  /** First render: `useState(propSubject || null)`. */
  function Mount(propSubject: Option<string>): (r: Screen)
    ensures Truthy(propSubject) ==> r.subject == propSubject
    ensures !Truthy(propSubject) ==> r.subject.None?
    ensures r.pane.quiz == QuizState.Initial && !r.pane.showResults
  {
    Screen(if Truthy(propSubject) then propSubject else None, Navigation.Pane(false, QuizState.Initial))
  }

  /** The props effect: a new subject is loaded; otherwise the current one
      is loaded when nothing is loaded yet. */
  function ReloadTarget(propSubject: Option<string>, s: Screen): (r: Option<string>)
    ensures r.Some? <==>
      || (Truthy(propSubject) && propSubject != s.subject)
      || (Truthy(s.subject) && |s.pane.quiz.questions| == 0)
    ensures Truthy(propSubject) && propSubject != s.subject ==> r == propSubject
  {
    if Truthy(propSubject) && propSubject != s.subject then propSubject
    else if Truthy(s.subject) && |s.pane.quiz.questions| == 0 then s.subject
    else None
  }

  /** Mounting with a chosen subject loads exactly that subject. */
  lemma MountLoadsSubject(propSubject: Option<string>)
    requires Truthy(propSubject)
    ensures ReloadTarget(propSubject, Mount(propSubject)) == propSubject
  {
  }

  /** Once a subject's questions are on screen, re-rendering with the same
      subject loads nothing. */
  lemma NoReloadWhenLoaded(propSubject: Option<string>, s: Screen)
    requires s.subject == propSubject && |s.pane.quiz.questions| > 0
    ensures ReloadTarget(propSubject, s).None?
  {
  }

  datatype Outcome = Ready(screen: Screen) | BackHome(toast: string)

  const LOAD_FAILED := "Failed to load subject MCQs"

  /** `loadSubject(subject)` with the fetch result. Only a thrown fetch is an
      error: unlike the exam screen, an empty list starts an empty session. */
  function Load(s: Screen, subject: string, fetched: Fetched): (r: Outcome)
    ensures r.Ready? <==> fetched.Items?
    ensures fetched.Thrown? ==> r == BackHome(if fetched.message != "" then fetched.message else LOAD_FAILED)
    ensures r.Ready? ==>
      && r.screen.subject == Some(subject)
      && r.screen.pane.quiz == QuizState.HandleMcqData(s.pane.quiz, fetched.questions, "", subject).(isMock := false)
      && !r.screen.pane.quiz.isMock && r.screen.pane.quiz.index == 0
      && |r.screen.pane.quiz.answers| == |fetched.questions|
  {
    match fetched
    case Thrown(m) => BackHome(if m != "" then m else LOAD_FAILED)
    case Items(qs) =>
      var quiz := QuizState.HandleMcqData(s.pane.quiz, qs, "", subject);
      Ready(s.(subject := Some(subject), pane := s.pane.(quiz := quiz.(isMock := false))))
  }

  /** The saved context label of a subject session names the subject. */
  lemma LoadedLabel(subject: string)
    requires subject != ""
    ensures QuizState.ContextLabel("", subject) == "subject:" + subject
  {
  }
}
