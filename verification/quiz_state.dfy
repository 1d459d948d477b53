/** The React quiz-session hook: the session record, loading a question set,
    recording an answer, and the persisted snapshot with its validity check. */
module QuizState {
  import opened Wrappers
  import opened Mcq

  /** The hook's state: cursor, question list, counters, answers, mock flag. */
  datatype Session = Session(
    index: nat,
    questions: seq<Question>,
    score: int,
    attempted: int,
    answers: seq<Answer>,
    isMock: bool)

  const MOCK_SUBJECT := "Mock Test"

  /** The initial state, which is also what `resetState` restores. */
  const Initial := Session(0, [], 0, 0, [], false)

  /** The invariant every reachable session keeps: the score never exceeds the
      number of attempts, neither is negative. */
  ghost predicate Valid(s: Session) {
    0 <= s.score <= s.attempted
  }

  /** `handleMCQData(data, month, subject)`. */
  function HandleMcqData(s: Session, data: seq<Question>, month: string, subject: string): (r: Session)
    ensures r.questions == data && r.index == 0
    ensures r.score == 0 && r.attempted == 0
    ensures |r.answers| == |data| && forall i :: 0 <= i < |data| ==> r.answers[i].None?
    ensures r.isMock <==> subject == MOCK_SUBJECT
  {
    Session(0, data, 0, 0, NullAnswers(|data|), subject == MOCK_SUBJECT)
  }

  /** The context label saved with the snapshot on load. */
  function ContextLabel(month: string, subject: string): string {
    if subject != "" then "subject:" + subject
    else if month != "" then "month:" + month
    else "direct"
  }

  /** The label names the subject when there is one, else the month, else
      says 'direct'; and a subject label determines the subject. */
  lemma ContextLabelPrefers(month: string, subject: string, month': string, subject': string)
    ensures subject != "" ==> Text.StartsWith(ContextLabel(month, subject), "subject:")
    ensures subject == "" && month != "" ==> Text.StartsWith(ContextLabel(month, subject), "month:")
    ensures subject == "" && month == "" ==> ContextLabel(month, subject) == "direct"
    ensures subject != "" && subject' != "" && ContextLabel(month, subject) == ContextLabel(month', subject')
            ==> subject == subject'
  {
    if subject != "" && subject' != "" && ContextLabel(month, subject) == ContextLabel(month', subject') {
      assert ContextLabel(month, subject)[8..] == subject;
      assert ContextLabel(month', subject')[8..] == subject';
    }
  }

  /** `arr[i] = v` on a JavaScript array: writing past the end grows the
      array, and the holes read as undefined (modelled as null). */
  function SetSlot(answers: seq<Answer>, i: nat, v: Answer): (r: seq<Answer>)
    ensures |r| == if i < |answers| then |answers| else i + 1
    ensures r[i] == v
    ensures forall j :: 0 <= j < |r| && j != i ==> r[j] == if j < |answers| then answers[j] else None
  {
    if i < |answers| then answers[i := v] else answers + NullAnswers(i - |answers|) + [v]
  }

  /** `selectOption(selected, correct)`: records the choice at the cursor,
      counts an attempt, and scores it when it matches the key exactly. */
  function SelectOption(s: Session, selected: string, correct: Option<string>): (r: Session)
    ensures |r.answers| == if s.index < |s.answers| then |s.answers| else s.index + 1
    ensures r.answers[s.index] == Some(selected)
    ensures forall j :: 0 <= j < |s.answers| && j != s.index ==> r.answers[j] == s.answers[j]
    ensures r.attempted == s.attempted + 1
    ensures r.score == s.score + 1 <==> correct == Some(selected)
    ensures r.score == s.score <==> correct != Some(selected)
    ensures r.index == s.index && r.questions == s.questions && r.isMock == s.isMock
  {
    s.(answers := SetSlot(s.answers, s.index, Some(selected)),
       attempted := s.attempted + 1,
       score := if Some(selected) == correct then s.score + 1 else s.score)
  }

  /** Loading and answering keep the score within the attempts. */
  lemma TransitionsKeepValid(s: Session, data: seq<Question>, month: string, subject: string,
                             selected: string, correct: Option<string>)
    ensures Valid(Initial)
    ensures Valid(HandleMcqData(s, data, month, subject))
    ensures Valid(s) ==> Valid(SelectOption(s, selected, correct))
  {
  }

  /** A run of answers from a freshly loaded set: attempts count the answers,
      and the score counts the matching ones. */
  function AnswerAll(s: Session, picks: seq<(string, Option<string>)>): Session
    decreases |picks|
  {
    if picks == [] then s
    else SelectOption(AnswerAll(s, picks[..|picks| - 1]), picks[|picks| - 1].0, picks[|picks| - 1].1)
  }

  function Matches(picks: seq<(string, Option<string>)>): nat
    decreases |picks|
  {
    if picks == [] then 0
    else Matches(picks[..|picks| - 1]) + (if picks[|picks| - 1].1 == Some(picks[|picks| - 1].0) then 1 else 0)
  }

  lemma {:induction false} AnswerAllCounts(s: Session, picks: seq<(string, Option<string>)>)
    ensures AnswerAll(s, picks).attempted == s.attempted + |picks|
    ensures AnswerAll(s, picks).score == s.score + Matches(picks)
    ensures Matches(picks) <= |picks|
    ensures Valid(s) ==> Valid(AnswerAll(s, picks))
    decreases |picks|
  {
    if picks != [] {
      AnswerAllCounts(s, picks[..|picks| - 1]);
    }
  }

  // ---------------------------------------------------------------------------
  // The persisted snapshot

  /** The payload `saveQuizState` writes. */
  datatype Snapshot = Snapshot(
    context: string,
    index: nat,
    answers: seq<Answer>,
    score: int,
    attempted: int,
    isMock: bool,
    questions: seq<Question>,
    timestamp: int)

  /** What `JSON.parse` made of the stored text: a falsy value (null, false,
      0, ""), or an object whose `currentMCQs` may or may not be an array. */
  datatype Parsed = FalsyValue | Record(questionsIsArray: bool, snapshot: Snapshot)

  /** The stored item: absent (or the empty string), text that fails to parse,
      or parsed JSON. */
  datatype Stored = Absent | Unparsable | Json(parsed: Parsed)

  /** `saveQuizState(ctx)` at time `now`. */
  function SaveQuizState(s: Session, ctx: string, now: int): Stored {
    Json(Record(true, Snapshot(ctx, s.index, s.answers, s.score, s.attempted, s.isMock, s.questions, now)))
  }

  /** `loadQuizState()`: the parsed payload, or null when storage is empty,
      unparsable, falsy, or lacks a question array. */
  function LoadQuizState(stored: Stored): (r: Option<Snapshot>)
    ensures r.Some? <==> stored.Json? && stored.parsed.Record? && stored.parsed.questionsIsArray
    ensures r.Some? ==> r.value == stored.parsed.snapshot
  {
    match stored
    case Json(Record(true, snap)) => Some(snap)
    case _ => None
  }

  /** Loading what was just saved gives back the session's fields. */
  lemma SaveLoadRoundTrip(s: Session, ctx: string, now: int)
    ensures LoadQuizState(SaveQuizState(s, ctx, now)).Some?
    ensures var snap := LoadQuizState(SaveQuizState(s, ctx, now)).value;
      && snap.context == ctx && snap.timestamp == now
      && Session(snap.index, snap.questions, snap.score, snap.attempted, snap.answers, snap.isMock) == s
  {
  }
}
