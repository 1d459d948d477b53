/** The question record the browser receives from the server, and the
    JavaScript truthiness tests the quiz screens apply to its fields. */
module Mcq {
  import opened Wrappers
  import Text

  /** A JavaScript string value that is truthy: present and non-empty. */
  predicate Truthy(v: Option<string>) {
    v.Some? && v.value != ""
  }

  /** One entry of a question's `options` object, in insertion order. The
      value may be null or empty, in which case the option is not shown. */
  datatype OptionEntry = OptionEntry(key: string, value: Option<string>)

  /** A question as served by the JSON routes. `correctAnswer` holds the key of
      the right option (null for questions without a key). */
  datatype Question = Question(
    text: string,
    options: seq<OptionEntry>,
    correctAnswer: Option<string>,
    explanation: Option<string>,
    subject: Option<string>)

  /** One slot of the answers array: null until the user picks an option key. */
  type Answer = Option<string>

  /** What a fetch helper hands a screen: either it threw with a message (a
      non-2xx response, whose JSON `error` or a fixed fallback becomes the
      message), or it returned the JSON list of questions. */
  datatype Fetched = Thrown(message: string) | Items(questions: seq<Question>)

  /** A question can be answered iff its key is a non-blank string
      (`correct_answer && correct_answer.trim() !== ''`). */
  function HasCorrectAnswer(q: Question): (r: bool)
    ensures r <==> q.correctAnswer.Some? && !Text.IsBlank(q.correctAnswer.value)
  {
    Text.StripEmptyIffBlank(q.correctAnswer.GetOr(""));
    Truthy(q.correctAnswer) && Text.Strip(q.correctAnswer.value) != ""
  }

  /** The options that are rendered: those whose value is truthy, in order. */
  function VisibleOptions(options: seq<OptionEntry>): (r: seq<OptionEntry>)
    ensures |r| <= |options|
    ensures forall i :: 0 <= i < |r| ==> Truthy(r[i].value) && r[i] in options
    ensures forall e :: e in options && Truthy(e.value) ==> e in r
  {
    if options == [] then []
    else (if Truthy(options[0].value) then [options[0]] else []) + VisibleOptions(options[1..])
  }

  /** All-null answers of a given length: `new Array(n).fill(null)`. */
  function NullAnswers(n: nat): (r: seq<Answer>)
    ensures |r| == n
    ensures forall i :: 0 <= i < n ==> r[i].None?
  {
    seq(n, _ => None)
  }
}
