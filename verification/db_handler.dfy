/** The pure parts of db_handler.py: the duplicate key computed before
    hashing, the text cleaning and subject defaulting applied on insert, the
    batch counters, and the numbering of rows read back. Hashing, the
    database and the date parsing of the file name are parameters or left
    out. */
module DbHandler {
  import opened Wrappers
  import Text
  import opened Mcq
  import opened Dict

  // ---------------------------------------------------------------------------
  // normalize_question

  /** The characters kept before collapsing: `c.isalnum() or c.isspace()`. */
  predicate Kept(c: char) {
    Text.IsAlnum(c) || Text.IsSpace(c)
  }

  /** Lower-casing, then both newline spellings turned into a space. */
  function Spaced(q: string): string {
    Text.ReplaceChar(Text.ReplaceEscapedNewline(Text.Lower(q), " "), '\n', " ")
  }

  /** The text before the prefix removal: punctuation dropped, whitespace
      collapsed. */
  function Cleaned(q: string): string {
    Text.Collapse(Filtered(q))
  }

  function Filtered(q: string): string {
    Text.FilterChars(Spaced(q), Kept)
  }

  const PREFIXES: seq<string> := ["a patient with", "patient with", "a case of", "in a patient with", "a", "an", "the"]

  /** The prefix loop: each prefix in turn, removed once when it is followed
      by a space. */
  function RemovePrefixes(t: string, ps: seq<string>): (r: string)
    ensures |r| <= |t| && Text.EndsWith(t, r)
    ensures (forall k :: 0 <= k < |ps| ==> !Text.StartsWith(t, ps[k] + " ")) ==> r == t
    decreases |ps|
  {
    if ps == [] then t
    else
      var next := if Text.StartsWith(t, ps[0] + " ") then t[|ps[0]| + 1..] else t;
      var r := RemovePrefixes(next, ps[1..]);
      assert Text.EndsWith(t, r) by {
        assert t[|t| - |next|..] == next;
        assert next[|next| - |r|..] == r;
        assert t[|t| - |r|..] == next[|next| - |r|..];
      }
      assert next == t ==> forall k :: 0 <= k < |ps[1..]| ==> ps[1..][k] == ps[k + 1];
      r
  }

  /** The string that is hashed. */
  function NormalizedKey(q: string): string {
    RemovePrefixes(Cleaned(q), PREFIXES)
  }

  /** `normalize_question(question)` with the MD5 hex digest as a parameter. */
  function NormalizeQuestion(question: Option<string>, md5: string -> string): (r: Option<string>)
    ensures r.None? <==> !Truthy(question)
    ensures r.Some? ==> r.value == md5(NormalizedKey(question.value))
  {
    if !Truthy(question) then None else Some(md5(NormalizedKey(question.value)))
  }

  /** Equal keys give equal digests, whatever the hash. */
  lemma SameKeySameDigest(x: string, y: string, md5: string -> string)
    requires x != "" && y != "" && NormalizedKey(x) == NormalizedKey(y)
    ensures NormalizeQuestion(Some(x), md5) == NormalizeQuestion(Some(y), md5)
  {
  }

  lemma LowerUpper(q: string)
    ensures Text.Lower(Text.Upper(q)) == Text.Lower(q)
  {
    assert forall i :: 0 <= i < |q| ==> Text.ToLower(Text.ToUpper(q[i])) == Text.ToLower(q[i]);
  }

  /** Questions that differ only in letter case share a key. */
  lemma KeyIgnoresCase(x: string, y: string)
    requires Text.Lower(x) == Text.Lower(y)
    ensures NormalizedKey(x) == NormalizedKey(y)
    ensures NormalizedKey(Text.Upper(x)) == NormalizedKey(x)
    ensures NormalizedKey(Text.Lower(x)) == NormalizedKey(x)
  {
    LowerUpper(x);
    Text.LowerIdempotent(x);
  }

  lemma LowerSplit(a: string, m: string, b: string)
    ensures Text.Lower(a + m + b) == Text.Lower(a) + Text.Lower(m) + Text.Lower(b)
  {
    Text.LowerConcat(a + m, b);
    Text.LowerConcat(a, m);
  }

  /** The spacing stage distributes over a middle part that cannot take
      part in an escaped newline with its neighbours. */
  lemma SpacedSplit(a: string, m: string, b: string)
    requires |m| > 0
    requires !(|a| > 0 && a[|a| - 1] == '\\' && Text.ToLower(m[0]) == 'n')
    requires !(m[|m| - 1] == '\\' && |b| > 0 && Text.ToLower(b[0]) == 'n')
    ensures Spaced(a + m + b) == Spaced(a) + Spaced(m) + Spaced(b)
  {
    SpacedConcat(a + m, b);
    SpacedConcat(a, m);
  }

  lemma SpacedConcat(a: string, b: string)
    requires !(|a| > 0 && a[|a| - 1] == '\\' && |b| > 0 && Text.ToLower(b[0]) == 'n')
    ensures Spaced(a + b) == Spaced(a) + Spaced(b)
  {
    Text.LowerConcat(a, b);
    Text.ReplaceEscapedNewlineConcat(Text.Lower(a), Text.Lower(b), " ");
    Text.ReplaceCharConcat(Text.ReplaceEscapedNewline(Text.Lower(a), " "), Text.ReplaceEscapedNewline(Text.Lower(b), " "), '\n', " ");
  }

  lemma SpacedChar(c: char)
    ensures Spaced([c]) == if c == '\n' then " " else [Text.ToLower(c)]
  {
    var l := Text.ToLower(c);
    assert Text.Lower([c]) == [l];
    assert [l][1..] == [];
    assert Text.ReplaceEscapedNewline([l], " ") == [l];
    assert Text.ReplaceChar([l], '\n', " ") == if l == '\n' then " " else [l];
  }

  /** A dropped character in the middle leaves the filtered text as if it
      were absent. */
  lemma FilterSkipsDropped(x: string, c: char, y: string)
    requires !Kept(c)
    ensures Text.FilterChars(x + [c] + y, Kept) == Text.FilterChars(x + y, Kept)
  {
    Text.FilterCharsConcat(x + [c], y, Kept);
    Text.FilterCharsConcat(x, [c], Kept);
    Text.FilterCharsConcat(x, y, Kept);
    assert Text.FilterChars([c], Kept) == [] by {
      assert [c][1..] == [];
    }
  }

  /** Punctuation passes the spacing stage unchanged. */
  lemma SpacedPunctuation(c: char)
    requires !Kept(c)
    ensures Spaced([c]) == [c]
  {
    SpacedChar(c);
  }

  lemma FilteredIgnoresPunctuation(a: string, c: char, b: string)
    requires !Kept(c) && c != '\\'
    requires !(|a| > 0 && a[|a| - 1] == '\\' && |b| > 0 && Text.ToLower(b[0]) == 'n')
    ensures Filtered(a + [c] + b) == Filtered(a + b)
  {
    var sa, sb := Spaced(a), Spaced(b);
    SpacedPunctuation(c);
    SpacedSplit(a, [c], b);
    SpacedConcat(a, b);
    assert Spaced(a + [c] + b) == sa + [c] + sb;
    FilterSkipsDropped(sa, c, sb);
  }

  /** Dropping a punctuation character keeps the key, unless that glues a
      backslash to an n (or the character is that backslash). */
  lemma KeyIgnoresPunctuation(a: string, c: char, b: string)
    requires !Kept(c) && c != '\\'
    requires !(|a| > 0 && a[|a| - 1] == '\\' && |b| > 0 && Text.ToLower(b[0]) == 'n')
    ensures NormalizedKey(a + [c] + b) == NormalizedKey(a + b)
  {
    FilteredIgnoresPunctuation(a, c, b);
  }

  lemma SpacedEscapedHead(b: string)
    ensures Spaced("\\n" + b) == " " + Spaced(b)
  {
    var lb := Text.Lower(b);
    Text.LowerConcat("\\n", b);
    assert Text.Lower("\\n") == "\\n";
    assert ("\\n" + lb)[2..] == lb;
    var rb := Text.ReplaceEscapedNewline(lb, " ");
    assert Text.ReplaceEscapedNewline("\\n" + lb, " ") == " " + rb;
    Text.ReplaceCharConcat(" ", rb, '\n', " ");
    assert Text.ReplaceChar(" ", '\n', " ") == " " by {
      assert " "[1..] == [];
    }
  }

  lemma SpacedEscapedSplit(a: string, b: string)
    ensures Spaced(a + "\\n" + b) == Spaced(a) + " " + Spaced(b)
  {
    var u := "\\n" + b;
    assert a + "\\n" + b == a + u;
    SpacedConcat(a, u);
    SpacedEscapedHead(b);
    Text.ConcatAssoc(Spaced(a), " ", Spaced(b));
  }

  lemma SpacedSpaceSplit(a: string, b: string)
    ensures Spaced(a + " " + b) == Spaced(a) + " " + Spaced(b)
  {
    SpacedSplit(a, " ", b);
    SpacedChar(' ');
  }

  lemma SpacedEscapedForm(a: string, b: string)
    ensures Spaced(a + "\\n" + b) == Spaced(a + " " + b)
  {
    SpacedEscapedSplit(a, b);
    SpacedSpaceSplit(a, b);
  }

  lemma SpacedNewlineForm(a: string, b: string)
    ensures Spaced(a + "\n" + b) == Spaced(a + " " + b)
  {
    SpacedSplit(a, "\n", b);
    SpacedSplit(a, " ", b);
    SpacedChar('\n');
    SpacedChar(' ');
  }

  /** Texts with the same spacing stage share a key. */
  lemma KeyOfSpaced(x: string, y: string)
    requires Spaced(x) == Spaced(y)
    ensures NormalizedKey(x) == NormalizedKey(y)
  {
    assert Filtered(x) == Filtered(y);
  }

  /** A real newline, a literal backslash-n and a space are interchangeable. */
  lemma KeyNewlineForms(a: string, b: string)
    ensures NormalizedKey(a + "\\n" + b) == NormalizedKey(a + " " + b)
    ensures NormalizedKey(a + "\n" + b) == NormalizedKey(a + " " + b)
  {
    SpacedEscapedForm(a, b);
    KeyOfSpaced(a + "\\n" + b, a + " " + b);
    SpacedNewlineForm(a, b);
    KeyOfSpaced(a + "\n" + b, a + " " + b);
  }

  lemma FilteredSplit(a: string, m: string, b: string)
    requires |m| > 0
    requires !(|a| > 0 && a[|a| - 1] == '\\' && Text.ToLower(m[0]) == 'n')
    requires !(m[|m| - 1] == '\\' && |b| > 0 && Text.ToLower(b[0]) == 'n')
    ensures Filtered(a + m + b) == Filtered(a) + Text.FilterChars(Spaced(m), Kept) + Filtered(b)
  {
    SpacedSplit(a, m, b);
    var sa, sm, sb := Spaced(a), Spaced(m), Spaced(b);
    Text.FilterCharsConcat(sa + sm, sb, Kept);
    Text.FilterCharsConcat(sa, sm, Kept);
  }

  /** One whitespace character passes the first stages as a whitespace
      character. */
  lemma FilteredSpace(c: char)
    requires Text.IsSpace(c)
    ensures Text.FilterChars(Spaced([c]), Kept) == [if c == '\n' then ' ' else c]
  {
    SpacedChar(c);
    var c' := if c == '\n' then ' ' else c;
    assert [c'][1..] == [];
  }

  lemma FilteredSpaces(a: string, c: char, d: char, b: string)
    requires Text.IsSpace(c) && Text.IsSpace(d)
    ensures var c', d' := if c == '\n' then ' ' else c, if d == '\n' then ' ' else d;
      && Filtered(a + [c, d] + b) == Filtered(a) + [c', d'] + Filtered(b)
      && Filtered(a + [c] + b) == Filtered(a) + [c'] + Filtered(b)
      && Filtered(a + " " + b) == Filtered(a) + " " + Filtered(b)
  {
    FilteredSplit(a, [c, d], b);
    FilteredSplit(a, [c], b);
    FilteredSplit(a, " ", b);
    FilteredPair(c, d);
    FilteredSpace(c);
    FilteredSpace(' ');
  }

  lemma FilteredPair(c: char, d: char)
    requires Text.IsSpace(c) && Text.IsSpace(d)
    ensures Text.FilterChars(Spaced([c, d]), Kept) == [if c == '\n' then ' ' else c, if d == '\n' then ' ' else d]
  {
    SpacedConcat([c], [d]);
    assert [c] + [d] == [c, d];
    FilteredSpace(c);
    FilteredSpace(d);
    Text.FilterCharsConcat(Spaced([c]), Spaced([d]), Kept);
  }

  /** A whitespace run counts as one whitespace character, of any kind. */
  lemma KeyIgnoresSpaceRuns(a: string, c: char, d: char, b: string)
    requires Text.IsSpace(c) && Text.IsSpace(d)
    ensures NormalizedKey(a + [c, d] + b) == NormalizedKey(a + [c] + b)
    ensures NormalizedKey(a + [c] + b) == NormalizedKey(a + " " + b)
  {
    var c', d' := if c == '\n' then ' ' else c, if d == '\n' then ' ' else d;
    FilteredSpaces(a, c, d, b);
    var fa, fb := Filtered(a), Filtered(b);
    Text.CollapseDoubledSpace(fa, c', d', fb);
    Text.CollapseSpaceChoice(fa, c', ' ', fb);
    assert Cleaned(a + [c, d] + b) == Cleaned(a + [c] + b);
    assert Cleaned(a + [c] + b) == Cleaned(a + " " + b);
  }

  lemma FirstCharDiffers(t: string, p: string)
    requires |t| > 0 && |p| > 0 && t[0] != p[0]
    ensures !Text.StartsWith(t, p)
  {
    if |p| <= |t| {
      assert t[..|p|][0] == t[0];
    }
  }

  /** The loop over a concatenated list runs the two lists in turn. */
  lemma {:induction false} RemovePrefixesConcat(t: string, ps: seq<string>, qs: seq<string>)
    ensures RemovePrefixes(t, ps + qs) == RemovePrefixes(RemovePrefixes(t, ps), qs)
    decreases |ps|
  {
    if ps == [] {
      assert ps + qs == qs;
    } else {
      assert (ps + qs)[0] == ps[0] && (ps + qs)[1..] == ps[1..] + qs;
      var next := if Text.StartsWith(t, ps[0] + " ") then t[|ps[0]| + 1..] else t;
      RemovePrefixesConcat(next, ps[1..], qs);
    }
  }

  /** The list is six phrases and articles, then "the". */
  lemma PrefixesSplit()
    ensures PREFIXES == PREFIXES[..6] + ["the"]
    ensures forall k :: 0 <= k < 6 ==> PREFIXES[k][0] == 'a' || PREFIXES[k][0] == 'p' || PREFIXES[k][0] == 'i'
  {
  }

  /** When only the last prefix of the list matches, exactly that prefix
      and its space go. */
  lemma OnlyLastMatches(t: string, firsts: seq<string>, p: string)
    requires forall k :: 0 <= k < |firsts| ==> !Text.StartsWith(t, firsts[k] + " ")
    requires Text.StartsWith(t, p + " ")
    ensures RemovePrefixes(t, firsts + [p]) == t[|p| + 1..]
  {
    RemovePrefixesConcat(t, firsts, [p]);
    assert [p][1..] == [];
  }

  /** Each prefix goes at most once: a doubled article loses one copy. */
  lemma PrefixRemovedOnce(x: string)
    ensures RemovePrefixes("the the " + x, PREFIXES) == "the " + x
  {
    var t := "the the " + x;
    RemovedOnceWith(t, x, PREFIXES[..6]);
    PrefixesSplit();
  }

  lemma RemovedOnceWith(t: string, x: string, firsts: seq<string>)
    requires t == "the the " + x
    requires forall k :: 0 <= k < |firsts| ==> |firsts[k]| > 0 && (firsts[k][0] == 'a' || firsts[k][0] == 'p' || firsts[k][0] == 'i')
    ensures RemovePrefixes(t, firsts + ["the"]) == "the " + x
  {
    DoubledArticle(x);
    NoOtherPrefix(t, firsts);
    OnlyLastMatches(t, firsts, "the");
  }

  lemma DoubledArticle(x: string)
    ensures var t := "the the " + x; t[0] == 't' && Text.StartsWith(t, "the" + " ") && t[|"the"| + 1..] == "the " + x
  {
    var t := "the the " + x;
    assert "the" + " " == "the ";
    assert t[..4] == "the ";
    assert t[4..] == "the " + x;
  }

  /** A text starting with 't' matches none of the prefixes that start
      otherwise. */
  lemma NoOtherPrefix(t: string, firsts: seq<string>)
    requires |t| > 0 && t[0] == 't'
    requires forall k :: 0 <= k < |firsts| ==> |firsts[k]| > 0 && (firsts[k][0] == 'a' || firsts[k][0] == 'p' || firsts[k][0] == 'i')
    ensures forall k :: 0 <= k < |firsts| ==> !Text.StartsWith(t, firsts[k] + " ")
  {
    forall k | 0 <= k < |firsts| ensures !Text.StartsWith(t, firsts[k] + " ") {
      FirstCharDiffers(t, firsts[k] + " ");
    }
  }

  // ---------------------------------------------------------------------------
  // insert_mcq: cleaning and defaulting

  /** `clean_text(text)`: a falsy value comes back as it is. */
  function CleanText(text: Option<string>): (r: Option<string>)
    ensures !Truthy(text) ==> r == text
    ensures Truthy(text) ==> r.Some?
    ensures Truthy(text) ==> Text.Canonical(r.value) && Text.NoEscapedNewline(r.value)
    ensures Truthy(text) ==> Text.NonSpace(r.value) == Text.NonSpace(Text.ReplaceEscapedNewline(text.value, "\n"))
  {
    if Truthy(text) then
      var t := Text.ReplaceEscapedNewline(text.value, "\n");
      Text.EscapedNewlinesGone(text.value, "\n");
      Text.CollapseNoEscape(t);
      Text.CollapseCanonical(t);
      Some(Text.Collapse(t))
    else text
  }

  /** Cleaning twice is cleaning once. */
  lemma CleanTextIdempotent(text: Option<string>)
    ensures CleanText(CleanText(text)) == CleanText(text)
  {
    if Truthy(text) {
      var u := CleanText(text).value;
      if u != "" {
        Text.NoEscapedNewlineFixed(u, "\n");
        Text.CanonicalCollapsesToItself(u);
      }
    }
  }

  /** A literal backslash-n cleans exactly like a real newline. */
  lemma CleanTextEscapedNewline(a: string, b: string)
    ensures CleanText(Some(a + "\\n" + b)) == CleanText(Some(a + "\n" + b))
  {
    ReplacedNewlineForms(a, b);
  }

  /** The literal and the real newline read the same after the replacement. */
  lemma ReplacedNewlineForms(a: string, b: string)
    ensures Text.ReplaceEscapedNewline(a + "\\n" + b, "\n") == Text.ReplaceEscapedNewline(a + "\n" + b, "\n")
  {
    var u, v := "\\n" + b, "\n" + b;
    assert a + "\\n" + b == a + u;
    assert a + "\n" + b == a + v;
    Text.ReplaceEscapedNewlineConcat(a, u, "\n");
    Text.ReplaceEscapedNewlineConcat(a, v, "\n");
    assert u[2..] == b && v[1..] == b;
    Text.ReplaceEscapedHead(u, "\n");
    Text.ReplacePlainHead(v, "\n");
  }

  /** One option column: the string 'null' is stored as NULL, anything else
      is cleaned. */
  function CleanOption(value: Option<string>): (r: Option<string>)
    ensures value == Some("null") ==> r.None?
    ensures value != Some("null") ==> r == CleanText(value)
  {
    if value == Some("null") then None else CleanText(value)
  }

  const SUBJECTS: seq<string> := ["Surgery", "Medicine", "Gynae", "Paeds"]

  /** The subject column: a known subject is kept, anything else is
      'Medicine'. */
  function DefaultSubject(subject: Option<string>): (r: string)
    ensures r in SUBJECTS
    ensures subject.Some? && subject.value in SUBJECTS ==> r == subject.value
    ensures !(subject.Some? && subject.value in SUBJECTS) ==> r == "Medicine"
  {
    if subject.Some? && subject.value in SUBJECTS then subject.value else "Medicine"
  }

  /** The MCQ handed to `insert_mcq`: options map letters to a string or
      JSON null. */
  datatype InsertMcq = InsertMcq(number: string, text: Option<string>, options: Dict<Option<string>>, subject: Option<string>)

  /** The column values `insert_mcq` computes before touching the database. */
  datatype Columns = Columns(
    questionText: Option<string>,
    normalized: Option<string>,
    a: Option<string>, b: Option<string>, c: Option<string>, d: Option<string>,
    subject: string)

  /** `options.get(k)`: a missing key and a JSON null both read as None. */
  function OptionValue(options: Dict<Option<string>>, k: string): (r: Option<string>)
    ensures !HasKey(options, k) ==> r.None?
    ensures HasKey(options, k) ==> Some(r) == Get(options, k)
  {
    match Get(options, k)
    case None => None
    case Some(v) => v
  }

  function PrepareColumns(mcq: InsertMcq, md5: string -> string): (r: Columns)
    ensures r.questionText == CleanText(mcq.text)
    ensures r.normalized == NormalizeQuestion(CleanText(mcq.text), md5)
    ensures r.a == CleanOption(OptionValue(mcq.options, "A")) && r.b == CleanOption(OptionValue(mcq.options, "B"))
    ensures r.c == CleanOption(OptionValue(mcq.options, "C")) && r.d == CleanOption(OptionValue(mcq.options, "D"))
    ensures r.subject == DefaultSubject(mcq.subject)
  {
    Columns(
      CleanText(mcq.text),
      NormalizeQuestion(CleanText(mcq.text), md5),
      CleanOption(OptionValue(mcq.options, "A")), CleanOption(OptionValue(mcq.options, "B")),
      CleanOption(OptionValue(mcq.options, "C")), CleanOption(OptionValue(mcq.options, "D")),
      DefaultSubject(mcq.subject))
  }

  /** Every prepared column is clean: the texts are in collapsed form, no
      option is the string 'null', and the subject is one of the four. */
  lemma PreparedColumnsClean(mcq: InsertMcq, md5: string -> string)
    ensures var r := PrepareColumns(mcq, md5);
      && (Truthy(r.questionText) ==> Text.Canonical(r.questionText.value))
      && r.subject in SUBJECTS
      && (r.normalized.Some? <==> Truthy(CleanText(mcq.text)))
  {
  }

  // ---------------------------------------------------------------------------
  // batch_insert_mcqs

  /** What `insert_mcq` gave back: the new row id, None after a caught
      error, or an exception that escaped it. */
  datatype InsertOutcome = Inserted(id: int) | NotInserted | Raised

  /** `if insert_mcq(...)`: an id counts when it is truthy. */
  predicate Succeeded(o: InsertOutcome) {
    o.Inserted? && o.id != 0
  }

  /** The reference count of successful inserts. */
  function Successes(mcqs: seq<InsertMcq>, insert: InsertMcq -> InsertOutcome): (r: nat)
    ensures r <= |mcqs|
    decreases |mcqs|
  {
    if mcqs == [] then 0
    else Successes(mcqs[..|mcqs| - 1], insert) + (if Succeeded(insert(mcqs[|mcqs| - 1])) then 1 else 0)
  }

  /** `batch_insert_mcqs(mcqs)`: every MCQ lands in exactly one counter. */
  method BatchInsert(mcqs: seq<InsertMcq>, insert: InsertMcq -> InsertOutcome) returns (successful: nat, failed: nat)
    ensures successful + failed == |mcqs|
    ensures successful == Successes(mcqs, insert)
    ensures (forall i :: 0 <= i < |mcqs| ==> Succeeded(insert(mcqs[i]))) ==> failed == 0
  {
    successful, failed := 0, 0;
    var i := 0;
    while i < |mcqs|
      invariant 0 <= i <= |mcqs|
      invariant successful + failed == i
      invariant successful == Successes(mcqs[..i], insert)
      invariant (forall j :: 0 <= j < i ==> Succeeded(insert(mcqs[j]))) ==> failed == 0
    {
      assert mcqs[..i + 1][..i] == mcqs[..i];
      match insert(mcqs[i]) {
        case Inserted(id) =>
          if id != 0 {
            successful := successful + 1;
          } else {
            failed := failed + 1;
          }
        case NotInserted =>
          failed := failed + 1;
        case Raised =>
          failed := failed + 1;
      }
      i := i + 1;
    }
    assert mcqs[..i] == mcqs;
  }

  // ---------------------------------------------------------------------------
  // Reading rows back

  /** One optional entry in front of the rest: present when truthy. */
  function OptionEntry(k: string, v: Option<string>, rest: Dict<string>): (r: Dict<string>)
    ensures (forall i :: 0 <= i < |rest| ==> rest[i].1 != "") ==> forall i :: 0 <= i < |r| ==> r[i].1 != ""
    ensures forall k' :: Get(r, k') == if k' == k && Truthy(v) then v else Get(rest, k')
    ensures forall k' :: HasKey(r, k') ==> k' == k || HasKey(rest, k')
  {
    if Truthy(v) then
      assert forall k' :: HasKey([(k, v.value)] + rest, k') ==> k' == k || HasKey(rest, k') by {
        forall k' | HasKey([(k, v.value)] + rest, k') ensures k' == k || HasKey(rest, k') {
          var i :| 0 <= i < |[(k, v.value)] + rest| && ([(k, v.value)] + rest)[i].0 == k';
          if i > 0 {
            assert rest[i - 1] == ([(k, v.value)] + rest)[i];
          }
        }
      }
      assert ([(k, v.value)] + rest)[1..] == rest;
      [(k, v.value)] + rest
    else rest
  }

  /** The options a read-back row shows: only the truthy columns, in
      letter order. */
  function PresentOptions(a: Option<string>, b: Option<string>, c: Option<string>, d: Option<string>): Dict<string> {
    OptionEntry("A", a, OptionEntry("B", b, OptionEntry("C", c, OptionEntry("D", d, []))))
  }

  lemma PresentNonEmpty(a: Option<string>, b: Option<string>, c: Option<string>, d: Option<string>)
    ensures var r := PresentOptions(a, b, c, d); forall i :: 0 <= i < |r| ==> r[i].1 != ""
  {
    var empty: Dict<string> := [];
    var rd := OptionEntry("D", d, empty);
    var rc := OptionEntry("C", c, rd);
    var rb := OptionEntry("B", b, rc);
    assert PresentOptions(a, b, c, d) == OptionEntry("A", a, rb);
  }

  lemma PresentKeys(a: Option<string>, b: Option<string>, c: Option<string>, d: Option<string>)
    ensures forall k :: HasKey(PresentOptions(a, b, c, d), k) ==> k == "A" || k == "B" || k == "C" || k == "D"
  {
    var empty: Dict<string> := [];
    var rd := OptionEntry("D", d, empty);
    var rc := OptionEntry("C", c, rd);
    var rb := OptionEntry("B", b, rc);
    assert PresentOptions(a, b, c, d) == OptionEntry("A", a, rb);
  }

  /** The letter of a column reads back its truthy value, whatever the
      other columns hold. */
  lemma PresentGet(a: Option<string>, b: Option<string>, c: Option<string>, d: Option<string>, k: string, v: Option<string>)
    requires (k == "A" && v == a) || (k == "B" && v == b) || (k == "C" && v == c) || (k == "D" && v == d)
    ensures Get(PresentOptions(a, b, c, d), k) == (if Truthy(v) then v else None)
  {
    var empty: Dict<string> := [];
    var rd := OptionEntry("D", d, empty);
    var rc := OptionEntry("C", c, rd);
    var rb := OptionEntry("B", b, rc);
    var ra := OptionEntry("A", a, rb);
    assert ra == PresentOptions(a, b, c, d);
    assert Get(empty, k) == None;
    if k == "A" {
      assert k != "B" && k != "C" && k != "D";
    } else if k == "B" {
      assert k != "A" && k != "C" && k != "D";
    } else if k == "C" {
      assert k != "A" && k != "B" && k != "D";
    } else {
      assert k != "A" && k != "B" && k != "C";
    }
  }

  lemma PresentGets(a: Option<string>, b: Option<string>, c: Option<string>, d: Option<string>)
    ensures var r := PresentOptions(a, b, c, d);
      && Get(r, "A") == (if Truthy(a) then a else None)
      && Get(r, "B") == (if Truthy(b) then b else None)
      && Get(r, "C") == (if Truthy(c) then c else None)
      && Get(r, "D") == (if Truthy(d) then d else None)
  {
    PresentGet(a, b, c, d, "A", a);
    PresentGet(a, b, c, d, "B", b);
    PresentGet(a, b, c, d, "C", c);
    PresentGet(a, b, c, d, "D", d);
  }

  /** The option dict holds the truthy columns under their letters, no
      other key, and no empty value. */
  lemma PresentOptionsShape(a: Option<string>, b: Option<string>, c: Option<string>, d: Option<string>)
    ensures var r := PresentOptions(a, b, c, d);
      && (forall i :: 0 <= i < |r| ==> r[i].1 != "")
      && Get(r, "A") == (if Truthy(a) then a else None)
      && Get(r, "B") == (if Truthy(b) then b else None)
      && Get(r, "C") == (if Truthy(c) then c else None)
      && Get(r, "D") == (if Truthy(d) then d else None)
      && (forall k :: HasKey(r, k) ==> k == "A" || k == "B" || k == "C" || k == "D")
  {
    PresentNonEmpty(a, b, c, d);
    PresentGets(a, b, c, d);
    PresentKeys(a, b, c, d);
  }

  /** A row of the subject query, in the selected column order. */
  datatype SubjectRow = SubjectRow(
    id: int, number: string, text: string,
    a: Option<string>, b: Option<string>, c: Option<string>, d: Option<string>,
    answer: string, source: Option<string>, examDate: Option<string>, explanation: Option<string>)

  datatype SubjectItem = SubjectItem(
    id: int, displayNumber: nat, text: string, options: Dict<string>,
    answer: string, source: Option<string>, examDate: Option<string>, explanation: Option<string>)

  /** The dicts `get_mcqs_by_subject` builds from the query rows (the exam
      date arrives already formatted). */
  function BySubject(rows: seq<SubjectRow>): (r: seq<SubjectItem>)
    ensures |r| == |rows|
    ensures forall i :: 0 <= i < |rows| ==> r[i].displayNumber == i + 1
    ensures forall i :: 0 <= i < |rows| ==>
      && r[i].id == rows[i].id && r[i].text == rows[i].text && r[i].answer == rows[i].answer
      && r[i].options == PresentOptions(rows[i].a, rows[i].b, rows[i].c, rows[i].d)
      && r[i].source == rows[i].source && r[i].examDate == rows[i].examDate && r[i].explanation == rows[i].explanation
  {
    seq(|rows|, i requires 0 <= i < |rows| =>
      var row := rows[i];
      SubjectItem(row.id, i + 1, row.text, PresentOptions(row.a, row.b, row.c, row.d),
        row.answer, row.source, row.examDate, row.explanation))
  }

  /** The display numbers run through 1..n without gaps or repeats. */
  lemma BySubjectNumbering(rows: seq<SubjectRow>, n: nat)
    ensures var r := BySubject(rows);
      && (forall i, j :: 0 <= i < j < |r| ==> r[i].displayNumber < r[j].displayNumber)
      && (1 <= n <= |rows| <==> exists i :: 0 <= i < |r| && r[i].displayNumber == n)
  {
    var r := BySubject(rows);
    if 1 <= n <= |rows| {
      assert r[n - 1].displayNumber == n;
    }
  }

  /** A row of the exam-date query. */
  datatype DateRow = DateRow(
    number: string, text: string,
    a: Option<string>, b: Option<string>, c: Option<string>, d: Option<string>,
    answer: string, source: Option<string>, subject: Option<string>, explanation: Option<string>)

  datatype DateItem = DateItem(
    displayNumber: nat, text: string, options: Dict<string>,
    answer: string, source: Option<string>, subject: Option<string>, explanation: Option<string>)

  /** The scan of the exam-date loop: the subject being counted, the
      counter, and the display numbers so far. The current subject starts
      as None, so leading rows without a subject do not reset the counter
      and the first of them is numbered 0. */
  function NumberScan(subjects: seq<Option<string>>): (r: (Option<string>, nat, seq<nat>))
    ensures |r.2| == |subjects|
    ensures subjects != [] ==> r.0 == subjects[|subjects| - 1] && r.1 == r.2[|subjects| - 1] + 1
    ensures subjects == [] ==> r == (None, 0, [])
    ensures |subjects| > 0 ==> r.2[0] == if subjects[0].Some? then 1 else 0
    ensures forall i :: 0 < i < |subjects| ==>
      r.2[i] == if subjects[i] != subjects[i - 1] then 1 else r.2[i - 1] + 1
    decreases |subjects|
  {
    if subjects == [] then (None, 0, [])
    else
      var prev := NumberScan(subjects[..|subjects| - 1]);
      var s := subjects[|subjects| - 1];
      var counter := if prev.0 != s then 1 else prev.1;
      (s, counter + 1, prev.2 + [counter])
  }

  /** A row's display number is its position within the run of rows of its
      subject (counting from 1, except for a leading run without subject). */
  lemma {:induction false} NumberingRuns(subjects: seq<Option<string>>, k: nat, i: nat)
    requires k <= i < |subjects|
    requires forall j :: k <= j <= i ==> subjects[j] == subjects[i]
    requires k == 0 || subjects[k - 1] != subjects[i]
    requires k > 0 || subjects[0].Some?
    ensures NumberScan(subjects).2[i] == i - k + 1
    decreases i - k
  {
    if i > k {
      NumberingRuns(subjects, k, i - 1);
    }
  }

  /** The dicts `get_mcqs_by_exam_date` builds from the query rows. */
  function ByExamDate(rows: seq<DateRow>): (r: seq<DateItem>)
    ensures |r| == |rows|
    ensures forall i :: 0 <= i < |rows| ==>
      && r[i].text == rows[i].text && r[i].answer == rows[i].answer && r[i].subject == rows[i].subject
      && r[i].options == PresentOptions(rows[i].a, rows[i].b, rows[i].c, rows[i].d)
      && r[i].source == rows[i].source && r[i].explanation == rows[i].explanation
    ensures forall i :: 0 <= i < |rows| ==>
      r[i].displayNumber == NumberScan(seq(|rows|, j requires 0 <= j < |rows| => rows[j].subject)).2[i]
  {
    var subjects := seq(|rows|, j requires 0 <= j < |rows| => rows[j].subject);
    var numbers := NumberScan(subjects).2;
    seq(|rows|, i requires 0 <= i < |rows| =>
      var row := rows[i];
      DateItem(numbers[i], row.text, PresentOptions(row.a, row.b, row.c, row.d),
        row.answer, row.source, row.subject, row.explanation))
  }
}
