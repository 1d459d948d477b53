/** The results screen: answered and correct counts, the rounded percentage,
    the performance tier, the mock summary and the review highlighting. */
module ResultsView {
  import opened Wrappers
  import opened Mcq
  import opened JsMath

  /** `userAnswers.filter(a => a !== null).length`. */
  function TotalAnswered(answers: seq<Answer>): (r: nat)
    ensures r <= |answers|
    ensures r == 0 <==> forall i :: 0 <= i < |answers| ==> answers[i].None?
    ensures r == |answers| <==> forall i :: 0 <= i < |answers| ==> answers[i].Some?
    decreases |answers|
  {
    if answers == [] then 0
    else
      var init := answers[..|answers| - 1];
      assert forall i :: 0 <= i < |init| ==> init[i] == answers[i];
      TotalAnswered(init) + (if answers[|answers| - 1].Some? then 1 else 0)
  }

  /** The reduce of ResultsView and of the vanilla final results, as written:
      a slot counts when it equals the key exactly, so an unanswered (null)
      slot counts for a question whose key is null. The reduce reads
      `mcqs[index]` for every answer slot, so there must be a question for
      each slot. */
  function CorrectAnswers(questions: seq<Question>, answers: seq<Answer>): (r: nat)
    requires |answers| <= |questions|
    ensures r <= |answers|
    decreases |answers|
  {
    if answers == [] then 0
    else
      var k := |answers| - 1;
      CorrectAnswers(questions, answers[..k]) + (if answers[k] == questions[k].correctAnswer then 1 else 0)
  }

  /** `totalAnswered > 0 ? Math.round(correct / totalAnswered * 100) : 0`. */
  function Percentage(correct: nat, answered: nat): (r: int)
    ensures answered == 0 ==> r == 0
    ensures answered > 0 ==> 2 * answered * r - answered <= 200 * correct < 2 * answered * r + answered
  {
    if answered > 0 then RoundDiv(100 * correct, answered) else 0
  }

  /** The percentage lies in 0..100 whenever the correct count is within the
      answered count, and is 100 when every answered question is correct. */
  lemma PercentageBounds(correct: nat, answered: nat)
    ensures 0 <= Percentage(correct, answered)
    ensures correct <= answered ==> Percentage(correct, answered) <= 100
    ensures answered > 0 && correct == answered ==> Percentage(correct, answered) == 100
  {
    if answered > 0 {
      RoundDivMonotone(0, 100 * correct, answered);
      RoundDivUnique(0, answered, 0);
      if correct <= answered {
        RoundDivMonotone(100 * correct, 100 * answered, answered);
        RoundDivUnique(100 * answered, answered, 100);
      }
    }
  }

  /** When every unanswered slot belongs to a question that has a key, the
      as-written count never exceeds the answered count. */
  lemma {:induction false} CorrectWithinAnswered(questions: seq<Question>, answers: seq<Answer>)
    requires |answers| <= |questions|
    requires forall i :: 0 <= i < |answers| && answers[i].None? ==> questions[i].correctAnswer.Some?
    ensures CorrectAnswers(questions, answers) <= TotalAnswered(answers)
    decreases |answers|
  {
    if answers != [] {
      CorrectWithinAnswered(questions, answers[..|answers| - 1]);
    }
  }

  /** The discrepancy: one keyed question answered correctly and one keyed-null
      question left unanswered give 2 correct out of 1 answered, i.e. 200%. */
  lemma NullKeyInflatesScore()
    ensures var qs := [Question("q1", [], Some("A"), None, None), Question("q2", [], None, None, None)];
      var answers: seq<Answer> := [Some("A"), None];
      && TotalAnswered(answers) == 1
      && CorrectAnswers(qs, answers) == 2
      && Percentage(CorrectAnswers(qs, answers), TotalAnswered(answers)) == 200
  {
    var qs := [Question("q1", [], Some("A"), None, None), Question("q2", [], None, None, None)];
    var answers: seq<Answer> := [Some("A"), None];
    assert answers[..1] == [Some("A")];
    assert answers[..1][..0] == [];
    RoundDivUnique(200, 1, 200);
  }

  /** The evidently intended count: answered slots that match the key. */
  function CorrectAnswered(questions: seq<Question>, answers: seq<Answer>): (r: nat)
    requires |answers| <= |questions|
    ensures r <= TotalAnswered(answers)
    decreases |answers|
  {
    if answers == [] then 0
    else
      var k := |answers| - 1;
      var hit := answers[k].Some? && answers[k] == questions[k].correctAnswer;
      assert TotalAnswered(answers) == TotalAnswered(answers[..k]) + (if answers[k].Some? then 1 else 0);
      CorrectAnswered(questions, answers[..k]) + (if hit then 1 else 0)
  }

  /** The intended count agrees with the as-written one exactly when no null
      slot meets a null key, and always yields a percentage within 0..100. */
  lemma {:induction false} CorrectAnsweredAgrees(questions: seq<Question>, answers: seq<Answer>)
    requires |answers| <= |questions|
    ensures (forall i :: 0 <= i < |answers| && answers[i].None? ==> questions[i].correctAnswer.Some?)
            ==> CorrectAnswered(questions, answers) == CorrectAnswers(questions, answers)
    ensures 0 <= Percentage(CorrectAnswered(questions, answers), TotalAnswered(answers)) <= 100
    decreases |answers|
  {
    PercentageBounds(CorrectAnswered(questions, answers), TotalAnswered(answers));
    if answers != [] {
      CorrectAnsweredAgrees(questions, answers[..|answers| - 1]);
    }
  }

  // ---------------------------------------------------------------------------
  // Tiers

  datatype Tier = Excellent | Good | Fair | NeedsImprovement

  /** The regular results view's performance level. */
  function TierOf(percentage: int): (r: Tier)
    ensures r == Excellent <==> 80 <= percentage
    ensures r == Good <==> 60 <= percentage < 80
    ensures r == Fair <==> 40 <= percentage < 60
    ensures r == NeedsImprovement <==> percentage < 40
  {
    if percentage >= 80 then Excellent
    else if percentage >= 60 then Good
    else if percentage >= 40 then Fair
    else NeedsImprovement
  }

  function Rank(t: Tier): nat {
    match t
    case NeedsImprovement => 0
    case Fair => 1
    case Good => 2
    case Excellent => 3
  }

  /** A higher percentage never earns a lower tier. */
  lemma TierMonotone(p: int, q: int)
    requires p <= q
    ensures Rank(TierOf(p)) <= Rank(TierOf(q))
  {
  }

  // ---------------------------------------------------------------------------
  // Mock summary

  /** "correct out of total" on the mock result card: the total is the
      number of questions served, not the number answered. */
  datatype MockSummary = MockSummary(correct: nat, outOf: nat, percentage: int)

  function MockResult(questions: seq<Question>, answers: seq<Answer>): (r: MockSummary)
    requires |answers| <= |questions|
    ensures r.outOf == |questions| && r.outOf >= TotalAnswered(answers)
    ensures r.correct == CorrectAnswers(questions, answers)
    ensures r.percentage == Percentage(r.correct, TotalAnswered(answers))
  {
    var c := CorrectAnswers(questions, answers);
    MockSummary(c, |questions|, Percentage(c, TotalAnswered(answers)))
  }

  // ---------------------------------------------------------------------------
  // Review highlighting

  datatype Style = CorrectStyle | ChosenWrong | Muted

  /** The style of option `key` in review: the key is always highlighted as
      correct, a wrong choice as wrong, anything else muted. */
  function ReviewStyle(key: string, correct: Option<string>, userAnswer: Answer): (r: Style)
    ensures r == CorrectStyle <==> correct == Some(key)
    ensures r == ChosenWrong <==> userAnswer == Some(key) && correct != Some(key)
    ensures r == Muted <==> userAnswer != Some(key) && correct != Some(key)
  {
    if Some(key) == correct then CorrectStyle
    else if Some(key) == userAnswer then ChosenWrong
    else Muted
  }

  /** The review rows of one question: its non-empty options with their styles. */
  function ReviewRows(q: Question, userAnswer: Answer): (r: seq<(string, Style)>)
    ensures var shown := VisibleOptions(q.options);
      && |r| == |shown|
      && forall i :: 0 <= i < |r| ==> r[i] == (shown[i].key, ReviewStyle(shown[i].key, q.correctAnswer, userAnswer))
  {
    var shown := VisibleOptions(q.options);
    seq(|shown|, i requires 0 <= i < |shown| => (shown[i].key, ReviewStyle(shown[i].key, q.correctAnswer, userAnswer)))
  }

  /** With distinct option keys, at most one row is highlighted correct and at
      most one as a wrong choice, and a correct choice leaves no wrong row. */
  lemma ReviewHighlightsAtMostOne(q: Question, userAnswer: Answer, i: nat, j: nat)
    requires KeysDistinct(q.options)
    requires i < j < |ReviewRows(q, userAnswer)|
    ensures !(ReviewRows(q, userAnswer)[i].1 == CorrectStyle && ReviewRows(q, userAnswer)[j].1 == CorrectStyle)
    ensures !(ReviewRows(q, userAnswer)[i].1 == ChosenWrong && ReviewRows(q, userAnswer)[j].1 == ChosenWrong)
    ensures userAnswer == q.correctAnswer ==> ReviewRows(q, userAnswer)[i].1 != ChosenWrong
  {
    VisibleKeysDistinct(q.options);
    var rows, shown := ReviewRows(q, userAnswer), VisibleOptions(q.options);
    assert rows[i] == (shown[i].key, ReviewStyle(shown[i].key, q.correctAnswer, userAnswer));
    assert rows[j] == (shown[j].key, ReviewStyle(shown[j].key, q.correctAnswer, userAnswer));
    assert shown[i].key != shown[j].key;
  }

  predicate KeysDistinct(options: seq<OptionEntry>) {
    forall a, b :: 0 <= a < b < |options| ==> options[a].key != options[b].key
  }

  lemma ConsDistinct(e: OptionEntry, t: seq<OptionEntry>)
    requires KeysDistinct(t)
    requires forall x :: x in t ==> x.key != e.key
    ensures KeysDistinct([e] + t)
  {
    var s := [e] + t;
    forall a, b | 0 <= a < b < |s| ensures s[a].key != s[b].key {
      assert s[b] == t[b - 1];
      if a > 0 {
        assert s[a] == t[a - 1];
      } else {
        assert t[b - 1] in t;
      }
    }
  }

  /** Filtering keeps the keys pairwise distinct. */
  lemma {:induction false} VisibleKeysDistinct(options: seq<OptionEntry>)
    requires KeysDistinct(options)
    ensures KeysDistinct(VisibleOptions(options))
    decreases |options|
  {
    if options != [] {
      var rest := options[1..];
      assert KeysDistinct(rest) by {
        forall a, b | 0 <= a < b < |rest| ensures rest[a].key != rest[b].key {
          assert rest[a] == options[a + 1] && rest[b] == options[b + 1];
        }
      }
      VisibleKeysDistinct(rest);
      var tail := VisibleOptions(rest);
      if Truthy(options[0].value) {
        forall x | x in tail ensures x.key != options[0].key {
          var k :| 0 <= k < |rest| && rest[k] == x;
          assert options[k + 1] == x;
        }
        ConsDistinct(options[0], tail);
      } else {
        assert VisibleOptions(options) == tail;
      }
    }
  }
}
