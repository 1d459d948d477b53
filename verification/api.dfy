/** The two pure helpers of the browser's api module: HTML escaping, and the
    fallbacks of the explanation formatter. */
module Api {
  import opened Wrappers
  import Text

  /** `escapeHtml(text)` as written: five global replaces, ampersand first. */
  function EscapeHtml(s: string): string {
    var s1 := Text.ReplaceChar(s, '&', "&amp;");
    var s2 := Text.ReplaceChar(s1, '<', "&lt;");
    var s3 := Text.ReplaceChar(s2, '>', "&gt;");
    var s4 := Text.ReplaceChar(s3, '"', "&quot;");
    Text.ReplaceChar(s4, '\'', "&#039;")
  }

  predicate Special(c: char) {
    c == '&' || c == '<' || c == '>' || c == '"' || c == '\''
  }

  /** The entity of one character. */
  function EscapeChar(c: char): (r: string)
    ensures Special(c) ==> |r| > 1 && r[0] == '&' && r[|r| - 1] == ';'
    ensures !Special(c) ==> r == [c]
  {
    match c
    case '&' => "&amp;"
    case '<' => "&lt;"
    case '>' => "&gt;"
    case '"' => "&quot;"
    case '\'' => "&#039;"
    case _ => [c]
  }

  /** The reference definition: every character mapped on its own. */
  function EscapeEach(s: string): (r: string)
    ensures |r| >= |s|
    ensures forall i :: 0 <= i < |r| ==> r[i] != '<' && r[i] != '>' && r[i] != '"' && r[i] != '\''
    decreases |s|
  {
    if s == [] then [] else EscapeChar(s[0]) + EscapeEach(s[1..])
  }

  lemma {:induction false} EscapeEachConcat(a: string, b: string)
    ensures EscapeEach(a + b) == EscapeEach(a) + EscapeEach(b)
    decreases |a|
  {
    if a == [] {
      assert a + b == b;
    } else {
      assert (a + b)[0] == a[0];
      assert (a + b)[1..] == a[1..] + b;
      EscapeEachConcat(a[1..], b);
      calc {
        EscapeEach(a + b);
        EscapeChar(a[0]) + EscapeEach(a[1..] + b);
        EscapeChar(a[0]) + (EscapeEach(a[1..]) + EscapeEach(b));
        (EscapeChar(a[0]) + EscapeEach(a[1..])) + EscapeEach(b);
      }
    }
  }

  lemma ReplaceSingle(x: char, c: char, rep: string)
    ensures Text.ReplaceChar([x], c, rep) == if x == c then rep else [x]
  {
    assert [x][1..] == [];
  }

  /** The tail of the chain, from the given step on, leaves a string
      without the remaining specials alone. */
  lemma ChainFrom(t: string, step: nat)
    requires 1 <= step <= 5
    requires step <= 1 ==> '<' !in t
    requires step <= 2 ==> '>' !in t
    requires step <= 3 ==> '"' !in t
    requires step <= 4 ==> '\'' !in t
    ensures step <= 1 ==> Text.ReplaceChar(t, '<', "&lt;") == t
    ensures step <= 2 ==> Text.ReplaceChar(t, '>', "&gt;") == t
    ensures step <= 3 ==> Text.ReplaceChar(t, '"', "&quot;") == t
    ensures step <= 4 ==> Text.ReplaceChar(t, '\'', "&#039;") == t
  {
  }

  /** The replace chain escapes one character exactly as the entity table
      says: later replaces never touch the entities written by earlier
      ones, because only '&' occurs in them and '&' goes first. */
  lemma EscapeHtmlChar(c: char)
    ensures EscapeHtml([c]) == EscapeChar(c)
  {
    ReplaceSingle(c, '&', "&amp;");
    ReplaceSingle(c, '<', "&lt;");
    ReplaceSingle(c, '>', "&gt;");
    ReplaceSingle(c, '"', "&quot;");
    ReplaceSingle(c, '\'', "&#039;");
    if c == '&' {
      ChainFrom("&amp;", 1);
    } else if c == '<' {
      ChainFrom("&lt;", 2);
    } else if c == '>' {
      ChainFrom("&gt;", 3);
    } else if c == '"' {
      ChainFrom("&quot;", 4);
    }
  }

  /** The replace chain distributes over concatenation. */
  lemma EscapeHtmlConcat(a: string, b: string)
    ensures EscapeHtml(a + b) == EscapeHtml(a) + EscapeHtml(b)
  {
    var s1a, s1b := Text.ReplaceChar(a, '&', "&amp;"), Text.ReplaceChar(b, '&', "&amp;");
    Text.ReplaceCharConcat(a, b, '&', "&amp;");
    var s2a, s2b := Text.ReplaceChar(s1a, '<', "&lt;"), Text.ReplaceChar(s1b, '<', "&lt;");
    Text.ReplaceCharConcat(s1a, s1b, '<', "&lt;");
    var s3a, s3b := Text.ReplaceChar(s2a, '>', "&gt;"), Text.ReplaceChar(s2b, '>', "&gt;");
    Text.ReplaceCharConcat(s2a, s2b, '>', "&gt;");
    var s4a, s4b := Text.ReplaceChar(s3a, '"', "&quot;"), Text.ReplaceChar(s3b, '"', "&quot;");
    Text.ReplaceCharConcat(s3a, s3b, '"', "&quot;");
    Text.ReplaceCharConcat(s4a, s4b, '\'', "&#039;");
  }

  /** The replace chain equals the per-character reference. */
  lemma {:induction false} EscapeHtmlIsPerChar(s: string)
    ensures EscapeHtml(s) == EscapeEach(s)
    decreases |s|
  {
    if s != [] {
      assert s == [s[0]] + s[1..];
      EscapeHtmlConcat([s[0]], s[1..]);
      EscapeHtmlChar(s[0]);
      EscapeHtmlIsPerChar(s[1..]);
    }
  }

  /** The escaped text has no '<', '>', '"' or '\'', is homomorphic over
      concatenation, is at least as long as the input, and has the same
      length exactly when the input has nothing to escape. */
  lemma EscapeHtmlProperties(s: string, a: string, b: string)
    ensures forall i :: 0 <= i < |EscapeHtml(s)| ==>
      EscapeHtml(s)[i] != '<' && EscapeHtml(s)[i] != '>' && EscapeHtml(s)[i] != '"' && EscapeHtml(s)[i] != '\''
    ensures EscapeHtml(a + b) == EscapeHtml(a) + EscapeHtml(b)
    ensures |EscapeHtml(s)| >= |s|
    ensures |EscapeHtml(s)| == |s| <==> forall i :: 0 <= i < |s| ==> !Special(s[i])
    ensures (forall i :: 0 <= i < |s| ==> !Special(s[i])) ==> EscapeHtml(s) == s
  {
    EscapeHtmlIsPerChar(s);
    EscapeHtmlConcat(a, b);
    EscapeEachLength(s);
  }

  lemma {:induction false} EscapeEachLength(s: string)
    ensures |EscapeEach(s)| == |s| <==> forall i :: 0 <= i < |s| ==> !Special(s[i])
    ensures (forall i :: 0 <= i < |s| ==> !Special(s[i])) ==> EscapeEach(s) == s
    decreases |s|
  {
    if s != [] {
      EscapeEachLength(s[1..]);
      assert forall i :: 1 <= i < |s| ==> s[i] == s[1..][i - 1];
      if forall i :: 0 <= i < |s| ==> !Special(s[i]) {
        assert forall i :: 0 <= i < |s[1..]| ==> !Special(s[1..][i]);
        assert [s[0]] + s[1..] == s;
      }
    }
  }

  // ---------------------------------------------------------------------------
  // Explanation formatting

  const NO_EXPLANATION := "<div style=\"padding: 20px; text-align: center; color: #666;\"><p>No explanation is available for this question.</p></div>"

  /** The fallback wrapper: the explanation verbatim. */
  function Wrapped(explanation: string): string {
    "<div style=\"padding: 20px; overflow-wrap: break-word; line-height: 1.6;\">" + explanation + "</div>"
  }

  /** The section pipeline. Splitting on the numbered `**N. ` headings and
      keeping the pieces that themselves contain a `**` title marker yields
      nothing for a text without `**`: its single piece has no content after
      a title. For other texts the rendered sections come from `render`, the
      regex pipeline left unmodelled. */
  function Sections(explanation: string, render: string -> string): string {
    if Text.Contains(explanation, "**") then render(explanation) else ""
  }

  /** `formatExplanation(explanation)`. */
  function FormatExplanation(explanation: Option<string>, render: string -> string): (r: string)
    ensures explanation.None? || Text.IsBlank(explanation.value) ==> r == NO_EXPLANATION
    ensures explanation.Some? && !Text.IsBlank(explanation.value) ==>
      (r == Wrapped(explanation.value) || r == render(explanation.value))
  {
    if explanation.None? || Text.Strip(explanation.value) == "" then
      Text.StripEmptyIffBlank(explanation.GetOr(""));
      NO_EXPLANATION
    else
      Text.StripEmptyIffBlank(explanation.value);
      var result := Sections(explanation.value, render);
      if result == "" || Text.Strip(result) == "" then Wrapped(explanation.value) else result
  }

  /** A non-blank explanation without any `**` comes back verbatim in the
      wrapper, whatever the section renderer does. */
  lemma PlainExplanationWrapped(explanation: string, render: string -> string)
    requires !Text.IsBlank(explanation) && !Text.Contains(explanation, "**")
    ensures FormatExplanation(Some(explanation), render) == Wrapped(explanation)
  {
    Text.StripEmptyIffBlank(explanation);
  }
}
