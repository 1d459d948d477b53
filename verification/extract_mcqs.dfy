/** The post-processing of the PDF extractor: slicing the JSON out of a model
    reply, sorting by question number, stripping the number prefix, merging
    duplicates, the overlapping page chunks, the display formatting and the
    highlighted-answer fill. The model calls and the PDF reading are left
    out: their outputs are inputs here. */
module ExtractMcqs {
  import opened Wrappers
  import Text
  import Mcq
  import opened Dict

  /** One extracted question as the model's JSON gives it. */
  datatype RawMcq = RawMcq(number: string, text: string, options: Dict<Option<string>>, answer: Option<string>)

  // ---------------------------------------------------------------------------
  // clean_json_content

  /** `clean_json_content(content)`: from the first '[' (else the first '{')
      to the last ']' (else the last '}'), stripped; None when either end is
      missing, and "" when the end precedes the start. */
  function CleanJsonContent(content: string): Option<string> {
    var start := JsonStart(content);
    var end := JsonEnd(content);
    if start.None? || end.None? then None
    else if end.value + 1 <= start.value then Some("")
    else Some(Text.Strip(content[start.value..end.value + 1]))
  }

  /** No JSON is found exactly when the reply lacks both opening or both
      closing delimiters. */
  lemma CleanJsonMissing(content: string)
    ensures CleanJsonContent(content).None? <==> ('[' !in content && '{' !in content) || (']' !in content && '}' !in content)
  {
  }

  /** The first '[', else the first '{'. */
  function JsonStart(content: string): (r: Option<nat>)
    ensures r.None? <==> '[' !in content && '{' !in content
    ensures r.Some? ==> r.value < |content|
  {
    match Text.Find(content, '[') case Some(i) => Some(i) case None => Text.Find(content, '{')
  }

  /** The last ']', else the last '}'. */
  function JsonEnd(content: string): (r: Option<nat>)
    ensures r.None? <==> ']' !in content && '}' !in content
    ensures r.Some? ==> r.value < |content|
  {
    match Text.RFind(content, ']') case Some(i) => Some(i) case None => Text.RFind(content, '}')
  }

  lemma ArrayStart(before: string, body: string, after: string)
    requires '[' !in before
    ensures JsonStart(before + "[" + body + "]" + after) == Some(|before|)
  {
    var s := before + "[" + body + "]" + after;
    assert s == before + ['['] + (body + "]" + after);
    Text.FindAfter(before, '[', body + "]" + after);
  }

  lemma ArrayEnd(before: string, body: string, after: string)
    requires ']' !in after
    ensures JsonEnd(before + "[" + body + "]" + after) == Some(|before| + |body| + 1)
  {
    var s := before + "[" + body + "]" + after;
    assert s == (before + "[" + body) + [']'] + after;
    Text.RFindBefore(before + "[" + body, ']', after);
  }

  /** A bracketed JSON array wrapped in prose without brackets comes back
      exactly. */
  lemma CleanJsonRecoversArray(before: string, body: string, after: string)
    requires '[' !in before && ']' !in after
    ensures CleanJsonContent(before + "[" + body + "]" + after) == Some("[" + body + "]")
  {
    ArrayStart(before, body, after);
    ArrayEnd(before, body, after);
    DelimitedClean(before, '[', body, ']', after);
  }

  lemma ObjectStart(before: string, body: string, after: string)
    requires '{' !in before
    requires '[' !in before && '[' !in body && '[' !in after
    ensures JsonStart(before + "{" + body + "}" + after) == Some(|before|)
  {
    var s := before + "{" + body + "}" + after;
    assert '[' !in s;
    assert s == before + ['{'] + (body + "}" + after);
    Text.FindAfter(before, '{', body + "}" + after);
  }

  lemma ObjectEnd(before: string, body: string, after: string)
    requires '}' !in after
    requires ']' !in before && ']' !in body && ']' !in after
    ensures JsonEnd(before + "{" + body + "}" + after) == Some(|before| + |body| + 1)
  {
    var s := before + "{" + body + "}" + after;
    assert ']' !in s;
    assert s == (before + "{" + body) + ['}'] + after;
    Text.RFindBefore(before + "{" + body, '}', after);
  }

  /** Without any square bracket, a braced object wrapped in prose without
      braces comes back exactly. */
  lemma CleanJsonRecoversObject(before: string, body: string, after: string)
    requires '{' !in before && '}' !in after
    requires '[' !in before && '[' !in body && '[' !in after
    requires ']' !in before && ']' !in body && ']' !in after
    ensures CleanJsonContent(before + "{" + body + "}" + after) == Some("{" + body + "}")
  {
    ObjectStart(before, body, after);
    ObjectEnd(before, body, after);
    DelimitedClean(before, '{', body, '}', after);
  }

  /** Once both ends are known to be the delimiters, the result is the
      delimited part. */
  lemma DelimitedClean(before: string, open: char, body: string, close: char, after: string)
    requires !Text.IsSpace(open) && !Text.IsSpace(close)
    requires JsonStart(before + [open] + body + [close] + after) == Some(|before|)
    requires JsonEnd(before + [open] + body + [close] + after) == Some(|before| + |body| + 1)
    ensures CleanJsonContent(before + [open] + body + [close] + after) == Some([open] + body + [close])
  {
    var s, w := before + [open] + body + [close] + after, [open] + body + [close];
    WrappedSlice(before, open, body, close, after);
    assert w[0] == open && w[|w| - 1] == close;
    BoundsClean(s, |before|, |before| + |body| + 1, w);
  }

  /** The delimited part of a wrapped text. */
  lemma WrappedSlice(before: string, open: char, body: string, close: char, after: string)
    ensures (before + [open] + body + [close] + after)[|before|..|before| + |body| + 2] == [open] + body + [close]
  {
    var s := before + [open] + body + [close] + after;
    assert s == before + ([open] + body + [close]) + after;
  }

  /** With both ends found in order around a slice that has no surrounding
      whitespace, the result is that slice. */
  lemma BoundsClean(s: string, start: nat, end: nat, w: string)
    requires JsonStart(s) == Some(start) && JsonEnd(s) == Some(end) && start <= end < |s|
    requires s[start..end + 1] == w && !Text.IsSpace(w[0]) && !Text.IsSpace(w[|w| - 1])
    ensures CleanJsonContent(s) == Some(w)
  {
    var start', end' := JsonStart(s), JsonEnd(s);
    assert !(end'.value + 1 <= start'.value);
    assert CleanJsonContent(s) == Some(Text.Strip(w));
    Text.StripNoOp(w);
  }

  /** A closing bracket before the only opening one gives the empty slice. */
  lemma CleanJsonReversed(before: string, middle: string, after: string)
    requires '[' !in before + middle && ']' !in middle + after
    ensures CleanJsonContent(before + "]" + middle + "[" + after) == Some("")
  {
    var s := before + "]" + middle + "[" + after;
    assert s == (before + "]" + middle) + ['['] + after;
    assert '[' !in before + "]" + middle by {
      assert forall c :: c in before + "]" + middle ==> c in before + middle || c == ']';
    }
    Text.FindAfter(before + "]" + middle, '[', after);
    assert s == before + [']'] + (middle + "[" + after);
    assert ']' !in middle + "[" + after by {
      assert forall c :: c in middle + "[" + after ==> c in middle + after || c == '[';
    }
    Text.RFindBefore(before, ']', middle + "[" + after);
  }

  // ---------------------------------------------------------------------------
  // sort_mcqs_by_number

  /** `extract_number(question_number)`: the integer formed by all the digits,
      or None (standing for `float('inf')`) when there are none. */
  function ExtractNumber(numberText: string): (r: Option<nat>)
    ensures r.None? <==> forall i :: 0 <= i < |numberText| ==> !Text.IsDigit(numberText[i])
  {
    var digits := Text.FilterChars(numberText, Text.IsDigit);
    Text.FilterCharsExtremes(numberText, Text.IsDigit);
    if digits == [] then None else Some(Text.DigitsValue(digits))
  }

  /** A number printed between digit-free decorations reads back. */
  lemma ExtractNumberOfLabel(before: string, n: nat, after: string)
    requires forall i :: 0 <= i < |before| ==> !Text.IsDigit(before[i])
    requires forall i :: 0 <= i < |after| ==> !Text.IsDigit(after[i])
    ensures ExtractNumber(before + Text.NatToString(n) + after) == Some(n)
  {
    var d := Text.NatToString(n);
    Text.FilterCharsConcat(before + d, after, Text.IsDigit);
    Text.FilterCharsConcat(before, d, Text.IsDigit);
    Text.FilterCharsExtremes(before, Text.IsDigit);
    Text.FilterCharsExtremes(after, Text.IsDigit);
    Text.FilterCharsExtremes(d, Text.IsDigit);
    assert Text.FilterChars(before + d + after, Text.IsDigit) == d;
    Text.NatToStringRoundTrip(n);
  }

  function Key(m: RawMcq): Option<nat> {
    ExtractNumber(m.number)
  }

  /** The sort order on keys: None is infinity, after every number. */
  predicate KeyLe(a: Option<nat>, b: Option<nat>) {
    b.None? || (a.Some? && a.value <= b.value)
  }

  predicate SortedBy<T>(s: seq<T>, key: T -> Option<nat>) {
    forall i, j :: 0 <= i < j < |s| ==> KeyLe(key(s[i]), key(s[j]))
  }

  /** The entries with key k, in order. */
  function WithKey<T>(s: seq<T>, key: T -> Option<nat>, k: Option<nat>): seq<T>
    decreases |s|
  {
    if s == [] then [] else (if key(s[0]) == k then [s[0]] else []) + WithKey(s[1..], key, k)
  }

  /** Puts x before the first entry whose key is not below its own. */
  function Insert<T>(x: T, s: seq<T>, key: T -> Option<nat>): seq<T>
    decreases |s|
  {
    if s == [] then [x]
    else if KeyLe(key(x), key(s[0])) then [x] + s
    else [s[0]] + Insert(x, s[1..], key)
  }

  /** Inserting adds exactly one copy of the element. */
  lemma {:induction false} InsertContents<T>(x: T, s: seq<T>, key: T -> Option<nat>)
    ensures multiset(Insert(x, s, key)) == multiset(s) + multiset{x}
    decreases |s|
  {
    if s != [] && !KeyLe(key(x), key(s[0])) {
      InsertContents(x, s[1..], key);
      assert s == [s[0]] + s[1..];
    }
  }

  /** Python's `sorted(s, key=key)`, which is stable: insertion from the
      front realises it by placing each entry before its equals. */
  function SortBy<T>(s: seq<T>, key: T -> Option<nat>): seq<T>
    decreases |s|
  {
    if s == [] then [] else Insert(s[0], SortBy(s[1..], key), key)
  }

  /** `sort_mcqs_by_number(mcqs)`. */
  function SortByNumber(s: seq<RawMcq>): seq<RawMcq> {
    SortBy(s, Key)
  }

  /** The order on keys is total. */
  lemma KeyLeTotal(a: Option<nat>, b: Option<nat>)
    ensures KeyLe(a, b) || KeyLe(b, a)
  {
  }

  /** The tail of a sorted sequence is sorted and bounded below by the head. */
  lemma SortedTail<T>(s: seq<T>, key: T -> Option<nat>)
    requires s != [] && SortedBy(s, key)
    ensures SortedBy(s[1..], key)
    ensures forall j :: 0 <= j < |s[1..]| ==> KeyLe(key(s[0]), key(s[1..][j]))
  {
    assert forall i :: 0 <= i < |s[1..]| ==> s[1..][i] == s[i + 1];
  }

  /** Putting a lower bound in front of a sorted sequence keeps it sorted. */
  lemma SortedCons<T>(h: T, t: seq<T>, key: T -> Option<nat>)
    requires SortedBy(t, key)
    requires forall j :: 0 <= j < |t| ==> KeyLe(key(h), key(t[j]))
    ensures SortedBy([h] + t, key)
  {
    var r := [h] + t;
    forall i, j | 0 <= i < j < |r| ensures KeyLe(key(r[i]), key(r[j])) {
      assert r[j] == t[j - 1];
      if i > 0 {
        assert r[i] == t[i - 1];
      }
    }
  }

  /** A bound on every entry of `rest` and on x bounds every entry of a
      sequence holding exactly those. */
  lemma BoundByContents<T>(h: T, x: T, t: seq<T>, rest: seq<T>, key: T -> Option<nat>)
    requires multiset(t) == multiset(rest) + multiset{x}
    requires KeyLe(key(h), key(x))
    requires forall j :: 0 <= j < |rest| ==> KeyLe(key(h), key(rest[j]))
    ensures forall j :: 0 <= j < |t| ==> KeyLe(key(h), key(t[j]))
  {
    forall j | 0 <= j < |t| ensures KeyLe(key(h), key(t[j])) {
      assert t[j] in multiset(t);
      if t[j] != x {
        assert t[j] in multiset(rest);
        var k :| 0 <= k < |rest| && rest[k] == t[j];
      }
    }
  }

  lemma {:induction false} InsertSorted<T>(x: T, s: seq<T>, key: T -> Option<nat>)
    requires SortedBy(s, key)
    ensures SortedBy(Insert(x, s, key), key)
    decreases |s|
  {
    if s != [] && !KeyLe(key(x), key(s[0])) {
      var t := Insert(x, s[1..], key);
      SortedTail(s, key);
      InsertSorted(x, s[1..], key);
      InsertContents(x, s[1..], key);
      KeyLeTotal(key(x), key(s[0]));
      BoundByContents(s[0], x, t, s[1..], key);
      SortedCons(s[0], t, key);
    }
  }

  /** WithKey of a sequence with a known head. */
  lemma WithKeyCons<T>(h: T, t: seq<T>, key: T -> Option<nat>, k: Option<nat>)
    ensures WithKey([h] + t, key, k) == (if key(h) == k then [h] else []) + WithKey(t, key, k)
  {
    assert ([h] + t)[1..] == t;
  }

  lemma {:induction false} InsertWithKey<T>(x: T, s: seq<T>, key: T -> Option<nat>, k: Option<nat>)
    ensures WithKey(Insert(x, s, key), key, k) == (if key(x) == k then [x] else []) + WithKey(s, key, k)
    decreases |s|
  {
    if s == [] {
      WithKeyCons(x, [], key, k);
    } else if KeyLe(key(x), key(s[0])) {
      WithKeyCons(x, s, key, k);
    } else {
      var t := Insert(x, s[1..], key);
      assert Insert(x, s, key) == [s[0]] + t;
      WithKeyCons(s[0], t, key, k);
      InsertWithKey(x, s[1..], key, k);
      assert key(x) != key(s[0]);
    }
  }

  lemma {:induction false} SortByPermutes<T>(s: seq<T>, key: T -> Option<nat>)
    ensures multiset(SortBy(s, key)) == multiset(s)
    decreases |s|
  {
    if s != [] {
      var t := SortBy(s[1..], key);
      assert SortBy(s, key) == Insert(s[0], t, key);
      SortByPermutes(s[1..], key);
      InsertContents(s[0], t, key);
      assert s == [s[0]] + s[1..];
      assert multiset(s) == multiset(s[1..]) + multiset{s[0]};
    }
  }

  lemma {:induction false} SortBySorted<T>(s: seq<T>, key: T -> Option<nat>)
    ensures SortedBy(SortBy(s, key), key)
    decreases |s|
  {
    if s != [] {
      SortBySorted(s[1..], key);
      InsertSorted(s[0], SortBy(s[1..], key), key);
    }
  }

  lemma {:induction false} SortByStable<T>(s: seq<T>, key: T -> Option<nat>, k: Option<nat>)
    ensures WithKey(SortBy(s, key), key, k) == WithKey(s, key, k)
    decreases |s|
  {
    if s != [] {
      SortByStable(s[1..], key, k);
      InsertWithKey(s[0], SortBy(s[1..], key), key, k);
    }
  }

  /** The sort is a permutation, ordered by key with keyless entries last,
      and stable: the entries sharing a key keep their input order. */
  lemma SortByCorrect<T>(s: seq<T>, key: T -> Option<nat>)
    ensures multiset(SortBy(s, key)) == multiset(s)
    ensures SortedBy(SortBy(s, key), key)
    ensures forall k :: WithKey(SortBy(s, key), key, k) == WithKey(s, key, k)
  {
    SortByPermutes(s, key);
    SortBySorted(s, key);
    forall k ensures WithKey(SortBy(s, key), key, k) == WithKey(s, key, k) {
      SortByStable(s, key, k);
    }
  }

  /** The question sort: a permutation of its input, ordered by the number
      in each label with digit-less labels last, and stable. */
  lemma SortByNumberCorrect(s: seq<RawMcq>)
    ensures multiset(SortByNumber(s)) == multiset(s)
    ensures forall i, j :: 0 <= i < j < |SortByNumber(s)| ==> KeyLe(Key(SortByNumber(s)[i]), Key(SortByNumber(s)[j]))
    ensures forall k :: WithKey(SortByNumber(s), Key, k) == WithKey(s, Key, k)
  {
    SortByCorrect(s, Key);
  }

  // ---------------------------------------------------------------------------
  // clean_question_text

  /** What may follow the number in a prefix, in the order they are tried. */
  const SEPARATORS: seq<string> := ["-", ".", ")", " -", " .", " )"]

  function Patterns(number: string): (r: seq<string>)
    ensures |r| == |SEPARATORS| && forall k :: 0 <= k < |r| ==> r[k] == number + SEPARATORS[k]
  {
    seq(|SEPARATORS|, k requires 0 <= k < |SEPARATORS| => number + SEPARATORS[k])
  }

  /** Each pattern in turn: when the text starts with it, cut it off and
      strip. */
  function StripPrefixes(t: string, pats: seq<string>): (r: string)
    ensures |r| <= |t|
    ensures (forall k :: 0 <= k < |pats| ==> !Text.StartsWith(t, pats[k])) ==> r == t
    decreases |pats|
  {
    if pats == [] then t
    else
      var t' := if Text.StartsWith(t, pats[0]) then Text.Strip(t[|pats[0]|..]) else t;
      assert forall k :: 0 <= k < |pats[1..]| ==> pats[1..][k] == pats[k + 1];
      StripPrefixes(t', pats[1..])
  }

  /** `clean_question_text(question_text, question_number)`. */
  function CleanQuestionText(text: string, number: string): (r: string)
    ensures |r| <= |text|
    ensures (forall k :: 0 <= k < |SEPARATORS| ==> !Text.StartsWith(text, number + SEPARATORS[k])) ==> r == text
  {
    StripPrefixes(text, Patterns(number))
  }

  /** When exactly the k-th pattern applies, the result is the rest after it,
      stripped. */
  lemma {:induction false} StripPrefixesAt(t: string, pats: seq<string>, k: nat)
    requires k < |pats|
    requires forall j :: 0 <= j < k ==> !Text.StartsWith(t, pats[j])
    requires Text.StartsWith(t, pats[k])
    requires forall j :: k < j < |pats| ==> !Text.StartsWith(Text.Strip(t[|pats[k]|..]), pats[j])
    ensures StripPrefixes(t, pats) == Text.Strip(t[|pats[k]|..])
    decreases k
  {
    var rest := pats[1..];
    assert forall j :: 0 <= j < |rest| ==> rest[j] == pats[j + 1];
    if k == 0 {
      var t' := Text.Strip(t[|pats[0]|..]);
      assert StripPrefixes(t, pats) == StripPrefixes(t', rest);
      assert forall j :: 0 <= j < |rest| ==> !Text.StartsWith(t', rest[j]);
    } else {
      assert !Text.StartsWith(t, pats[0]);
      assert StripPrefixes(t, pats) == StripPrefixes(t, rest);
      StripPrefixesAt(t, rest, k - 1);
    }
  }

  lemma StartsWithLonger(x: string, n: string, y: string)
    requires Text.StartsWith(x, n + y)
    ensures Text.StartsWith(x, n)
  {
    assert x[..|n|] == (n + y)[..|n|];
  }

  /** No separator is a prefix of a later one. */
  lemma SeparatorsPrefixFree(n: string, body: string, j: nat, k: nat)
    requires j < k < |SEPARATORS|
    ensures !Text.StartsWith(n + SEPARATORS[k] + body, n + SEPARATORS[j])
  {
    var t := n + SEPARATORS[k] + body;
    var p := n + SEPARATORS[j];
    if k < 3 || j >= 3 {
      var at := if k < 3 then |n| else |n| + 1;
      assert t[at] != p[at];
    } else {
      assert t[|n|] != p[|n|];
    }
  }

  /** A question text made of its number, one of the separators and a body
      that does not itself start with the number comes back as the stripped
      body. */
  lemma NumberPrefixRemoved(number: string, k: nat, body: string)
    requires k < |SEPARATORS|
    requires !Text.StartsWith(Text.Strip(body), number)
    ensures CleanQuestionText(number + SEPARATORS[k] + body, number) == Text.Strip(body)
  {
    var t := number + SEPARATORS[k] + body;
    var pats := Patterns(number);
    forall j | 0 <= j < k ensures !Text.StartsWith(t, pats[j]) {
      SeparatorsPrefixFree(number, body, j, k);
    }
    assert t[..|pats[k]|] == pats[k];
    assert t[|pats[k]|..] == body;
    forall j | k < j < |pats| ensures !Text.StartsWith(Text.Strip(body), pats[j]) {
      if Text.StartsWith(Text.Strip(body), pats[j]) {
        StartsWithLonger(Text.Strip(body), number, SEPARATORS[j]);
      }
    }
    StripPrefixesAt(t, pats, k);
  }

  // ---------------------------------------------------------------------------
  // Merging duplicates

  /** A dict entry that is present and truthy. */
  predicate TruthyAt(d: Dict<Option<string>>, k: string) {
    Get(d, k).Some? && Mcq.Truthy(Get(d, k).value)
  }

  /** One step of the option merge: fill the option when the existing one is
      missing or falsy. */
  function FillOption(e: Dict<Option<string>>, entry: (string, Option<string>)): Dict<Option<string>> {
    if !TruthyAt(e, entry.0) then Put(e, entry.0, entry.1) else e
  }

  /** `for opt, text in mcq['options'].items(): ...`. */
  function MergeOptions(e: Dict<Option<string>>, incoming: Dict<Option<string>>): Dict<Option<string>>
    decreases |incoming|
  {
    if incoming == [] then e else MergeOptions(FillOption(e, incoming[0]), incoming[1..])
  }

  /** One fill step: truthy options stay, a truthy incoming option lands,
      and the incoming key is added. */
  lemma FillOptionFacts(e: Dict<Option<string>>, entry: (string, Option<string>))
    ensures forall k :: TruthyAt(e, k) ==> Get(FillOption(e, entry), k) == Get(e, k)
    ensures Mcq.Truthy(entry.1) ==> TruthyAt(FillOption(e, entry), entry.0)
    ensures forall k :: HasKey(FillOption(e, entry), k) <==> HasKey(e, k) || k == entry.0
  {
    GetPutOthers(e, entry.0, entry.1);
    PutKeys(e, entry.0, entry.1);
  }

  /** The keys of a non-empty dict: its first key and the keys of the rest. */
  lemma HasKeyCons<V>(d: Dict<V>)
    requires d != []
    ensures forall k :: HasKey(d, k) <==> k == d[0].0 || HasKey(d[1..], k)
  {
    forall k | HasKey(d, k) ensures k == d[0].0 || HasKey(d[1..], k) {
      var i :| 0 <= i < |d| && d[i].0 == k;
      if i > 0 {
        assert d[1..][i - 1].0 == k;
      }
    }
    forall k | HasKey(d[1..], k) ensures HasKey(d, k) {
      var i :| 0 <= i < |d[1..]| && d[1..][i].0 == k;
      assert d[i + 1].0 == k;
    }
  }

  lemma {:induction false} MergeKeepsTruthy(e: Dict<Option<string>>, incoming: Dict<Option<string>>)
    ensures forall k :: TruthyAt(e, k) ==> Get(MergeOptions(e, incoming), k) == Get(e, k)
    decreases |incoming|
  {
    if incoming != [] {
      var e1 := FillOption(e, incoming[0]);
      MergeKeepsTruthy(e1, incoming[1..]);
      FillOptionFacts(e, incoming[0]);
    }
  }

  lemma {:induction false} MergeFillsTruthy(e: Dict<Option<string>>, incoming: Dict<Option<string>>)
    ensures forall i :: 0 <= i < |incoming| && Mcq.Truthy(incoming[i].1) ==> TruthyAt(MergeOptions(e, incoming), incoming[i].0)
    decreases |incoming|
  {
    if incoming != [] {
      var e1 := FillOption(e, incoming[0]);
      var rest := incoming[1..];
      var r := MergeOptions(e, incoming);
      assert r == MergeOptions(e1, rest);
      MergeFillsTruthy(e1, rest);
      MergeKeepsTruthy(e1, rest);
      FillOptionFacts(e, incoming[0]);
      forall i | 0 <= i < |incoming| && Mcq.Truthy(incoming[i].1) ensures TruthyAt(r, incoming[i].0) {
        if i > 0 {
          assert incoming[i] == rest[i - 1];
        }
      }
    }
  }

  lemma {:induction false} MergeKeys(e: Dict<Option<string>>, incoming: Dict<Option<string>>)
    ensures forall k :: HasKey(MergeOptions(e, incoming), k) <==> HasKey(e, k) || HasKey(incoming, k)
    decreases |incoming|
  {
    if incoming != [] {
      MergeKeys(FillOption(e, incoming[0]), incoming[1..]);
      FillOptionFacts(e, incoming[0]);
      HasKeyCons(incoming);
    }
  }

  /** The option merge never changes a truthy option, fills every option the
      incoming copy has truthy, and has exactly the keys of both. */
  lemma MergeOptionsProps(e: Dict<Option<string>>, incoming: Dict<Option<string>>)
    ensures forall k :: TruthyAt(e, k) ==> Get(MergeOptions(e, incoming), k) == Get(e, k)
    ensures forall i :: 0 <= i < |incoming| && Mcq.Truthy(incoming[i].1) ==> TruthyAt(MergeOptions(e, incoming), incoming[i].0)
    ensures forall k :: HasKey(MergeOptions(e, incoming), k) <==> HasKey(e, k) || HasKey(incoming, k)
  {
    MergeKeepsTruthy(e, incoming);
    MergeFillsTruthy(e, incoming);
    MergeKeys(e, incoming);
  }

  /** Every truthy option of `before` reads the same in `after`. */
  ghost predicate TruthyKept(before: Dict<Option<string>>, after: Dict<Option<string>>) {
    forall k :: TruthyAt(before, k) ==> Get(after, k) == Get(before, k)
  }

  /** Every truthy option of `source` is truthy in `after`. */
  ghost predicate TruthyFilled(source: Dict<Option<string>>, after: Dict<Option<string>>) {
    forall k :: TruthyAt(source, k) ==> TruthyAt(after, k)
  }

  /** Merging a duplicate m into the kept entry e. */
  function MergeInto(e: RawMcq, m: RawMcq): (r: RawMcq)
    ensures r.number == e.number
    ensures Mcq.Truthy(r.answer) <==> Mcq.Truthy(e.answer) || Mcq.Truthy(m.answer)
    ensures Mcq.Truthy(e.answer) ==> r.answer == e.answer
    ensures |r.text| >= |e.text| && |r.text| >= |m.text|
    ensures r.text == e.text || r.text == m.text
    ensures TruthyKept(e.options, r.options)
    ensures TruthyFilled(m.options, r.options)
  {
    MergeOptionsProps(e.options, m.options);
    assert forall k :: TruthyAt(m.options, k) ==> exists i :: 0 <= i < |m.options| && m.options[i] == (k, Get(m.options, k).value);
    RawMcq(e.number,
           if |m.text| > |e.text| then m.text else e.text,
           MergeOptions(e.options, m.options),
           if !Mcq.Truthy(e.answer) && Mcq.Truthy(m.answer) then m.answer else e.answer)
  }

  /** Each copy has its text cleaned before it is kept or merged. */
  function Cleaned(m: RawMcq): RawMcq {
    m.(text := CleanQuestionText(m.text, m.number))
  }

  /** The cleaning does not depend on the dict, so the loop is the same as
      cleaning every copy first and then merging. */
  function CleanAll(all: seq<RawMcq>): (r: seq<RawMcq>)
    ensures |r| == |all| && forall i :: 0 <= i < |all| ==> r[i] == Cleaned(all[i])
  {
    seq(|all|, i requires 0 <= i < |all| => Cleaned(all[i]))
  }

  /** One turn of the loop: keep a new number's copy, or merge a duplicate
      into the kept entry. */
  function Absorb(d: Dict<RawMcq>, m: RawMcq): Dict<RawMcq> {
    match Get(d, m.number)
    case None => Put(d, m.number, m)
    case Some(e) => Put(d, m.number, MergeInto(e, m))
  }

  /** The `processed_mcqs` dict after the loop over cleaned copies: keyed by
      question number, in order of first appearance. */
  function Dedup(ms: seq<RawMcq>): Dict<RawMcq>
    decreases |ms|
  {
    if ms == [] then [] else Absorb(Dedup(ms[..|ms| - 1]), ms[|ms| - 1])
  }

  /** `list(processed_mcqs.values())`. */
  function MergeDuplicates(all: seq<RawMcq>): seq<RawMcq> {
    Values(Dedup(CleanAll(all)))
  }

  /** What one turn does to the dict, key by key. */
  lemma AbsorbGet(d: Dict<RawMcq>, m: RawMcq)
    ensures Get(Absorb(d, m), m.number) ==
      Some(if Get(d, m.number).Some? then MergeInto(Get(d, m.number).value, m) else m)
    ensures forall k :: k != m.number ==> Get(Absorb(d, m), k) == Get(d, k)
    ensures forall k :: HasKey(Absorb(d, m), k) <==> HasKey(d, k) || k == m.number
    ensures DistinctKeys(d) ==> DistinctKeys(Absorb(d, m))
  {
    var v := if Get(d, m.number).Some? then MergeInto(Get(d, m.number).value, m) else m;
    assert Absorb(d, m) == Put(d, m.number, v);
    GetPutOthers(d, m.number, v);
    PutKeys(d, m.number, v);
    if DistinctKeys(d) {
      PutDistinct(d, m.number, v);
    }
  }

  predicate Mentions(ms: seq<RawMcq>, k: string) {
    exists i :: 0 <= i < |ms| && ms[i].number == k
  }

  predicate AnyTruthyAnswer(ms: seq<RawMcq>, k: string) {
    exists i :: 0 <= i < |ms| && ms[i].number == k && Mcq.Truthy(ms[i].answer)
  }

  /** Appending one copy adds its number, and its key when truthy. */
  lemma MentionsSnoc(ms: seq<RawMcq>)
    requires ms != []
    ensures forall k :: Mentions(ms, k) <==> Mentions(ms[..|ms| - 1], k) || k == ms[|ms| - 1].number
    ensures forall k :: AnyTruthyAnswer(ms, k) <==>
      AnyTruthyAnswer(ms[..|ms| - 1], k) || (k == ms[|ms| - 1].number && Mcq.Truthy(ms[|ms| - 1].answer))
    ensures forall k :: AnyTruthyAnswer(ms, k) ==> Mentions(ms, k)
  {
    var init := ms[..|ms| - 1];
    assert forall i :: 0 <= i < |init| ==> init[i] == ms[i];
    forall k | Mentions(ms, k) ensures Mentions(init, k) || k == ms[|ms| - 1].number {
      var i :| 0 <= i < |ms| && ms[i].number == k;
      if i < |init| {
        assert init[i].number == k;
      }
    }
    forall k | AnyTruthyAnswer(ms, k)
      ensures AnyTruthyAnswer(init, k) || (k == ms[|ms| - 1].number && Mcq.Truthy(ms[|ms| - 1].answer))
    {
      var i :| 0 <= i < |ms| && ms[i].number == k && Mcq.Truthy(ms[i].answer);
      if i < |init| {
        assert init[i].number == k && Mcq.Truthy(init[i].answer);
      }
    }
  }

  /** One entry per distinct number: the keys are distinct, they are exactly
      the numbers that occur, and each entry carries its own number. */
  lemma {:induction false} DedupDistinct(ms: seq<RawMcq>)
    ensures DistinctKeys(Dedup(ms))
    decreases |ms|
  {
    if ms != [] {
      DedupDistinct(ms[..|ms| - 1]);
      AbsorbGet(Dedup(ms[..|ms| - 1]), ms[|ms| - 1]);
    }
  }

  lemma {:induction false} DedupHasKey(ms: seq<RawMcq>)
    ensures forall k :: HasKey(Dedup(ms), k) <==> Mentions(ms, k)
    decreases |ms|
  {
    if ms != [] {
      DedupHasKey(ms[..|ms| - 1]);
      AbsorbGet(Dedup(ms[..|ms| - 1]), ms[|ms| - 1]);
      MentionsSnoc(ms);
    }
  }

  lemma {:induction false} DedupNumbered(ms: seq<RawMcq>)
    ensures forall k :: HasKey(Dedup(ms), k) ==> Get(Dedup(ms), k).value.number == k
    decreases |ms|
  {
    if ms != [] {
      var d := Dedup(ms[..|ms| - 1]);
      DedupNumbered(ms[..|ms| - 1]);
      AbsorbGet(d, ms[|ms| - 1]);
      assert Dedup(ms) == Absorb(d, ms[|ms| - 1]);
    }
  }

  /** One entry per distinct number: the keys are distinct, they are exactly
      the numbers that occur, and each entry carries its own number. */
  lemma DedupKeys(ms: seq<RawMcq>)
    ensures DistinctKeys(Dedup(ms))
    ensures forall k :: HasKey(Dedup(ms), k) <==> Mentions(ms, k)
    ensures forall k :: HasKey(Dedup(ms), k) ==> Get(Dedup(ms), k).value.number == k
  {
    DedupDistinct(ms);
    DedupHasKey(ms);
    DedupNumbered(ms);
  }

  ghost predicate AnswerInv(d: Dict<RawMcq>, ms: seq<RawMcq>) {
    forall k :: HasKey(d, k) ==> (Mcq.Truthy(Get(d, k).value.answer) <==> AnyTruthyAnswer(ms, k))
  }

  /** The kept entry has a truthy key iff some copy of its number had one. */
  lemma {:induction false} DedupAnswer(ms: seq<RawMcq>)
    ensures AnswerInv(Dedup(ms), ms)
    decreases |ms|
  {
    if ms != [] {
      var init := ms[..|ms| - 1];
      var d := Dedup(init);
      var m := ms[|ms| - 1];
      DedupAnswer(init);
      DedupKeys(init);
      AbsorbGet(d, m);
      MentionsSnoc(ms);
      forall k | HasKey(Dedup(ms), k)
        ensures Mcq.Truthy(Get(Dedup(ms), k).value.answer) <==> AnyTruthyAnswer(ms, k)
      {
        if k != m.number {
          assert Get(Dedup(ms), k) == Get(d, k);
        }
      }
    }
  }

  /** The entry kept for number k is at least as long as the copy x and has
      every option x has truthy. */
  ghost predicate Covers(d: Dict<RawMcq>, x: RawMcq) {
    HasKey(d, x.number)
    && |Get(d, x.number).value.text| >= |x.text|
    && TruthyFilled(x.options, Get(d, x.number).value.options)
  }

  /** A turn keeps every earlier copy covered and covers the new one. */
  lemma AbsorbCovers(d: Dict<RawMcq>, m: RawMcq, x: RawMcq)
    ensures Covers(d, x) ==> Covers(Absorb(d, m), x)
    ensures Covers(Absorb(d, m), m)
  {
    AbsorbGet(d, m);
    if Covers(d, x) && x.number == m.number {
      var e := Get(d, m.number).value;
      var v := MergeInto(e, m);
      assert TruthyFilled(x.options, e.options);
      assert TruthyKept(e.options, v.options);
    }
  }

  /** The kept text is at least as long as every copy's, and no truthy
      option of any copy is lost. */
  lemma {:induction false} DedupCovers(ms: seq<RawMcq>)
    ensures forall i :: 0 <= i < |ms| ==> Covers(Dedup(ms), ms[i])
    decreases |ms|
  {
    if ms != [] {
      var init := ms[..|ms| - 1];
      DedupCovers(init);
      forall i | 0 <= i < |ms| ensures Covers(Dedup(ms), ms[i]) {
        AbsorbCovers(Dedup(init), ms[|ms| - 1], ms[i]);
        if i < |init| {
          assert init[i] == ms[i];
        }
      }
    }
  }

  /** e is the entry kept for the i-th copy: same number, a truthy key iff
      some copy of that number had one, a text no shorter than the copy's
      cleaned text, and every option the copy had truthy. */
  ghost predicate KeptFor(e: RawMcq, all: seq<RawMcq>, i: nat)
    requires i < |all|
  {
    && e.number == all[i].number
    && (Mcq.Truthy(e.answer) <==> AnyTruthyAnswer(all, e.number))
    && |e.text| >= |Cleaned(all[i]).text|
    && TruthyFilled(all[i].options, e.options)
  }

  ghost predicate HasKept(out: seq<RawMcq>, all: seq<RawMcq>, i: nat)
    requires i < |all|
  {
    exists j :: 0 <= j < |out| && KeptFor(out[j], all, i)
  }

  /** Cleaning keeps numbers and keys, so it mentions the same numbers. */
  lemma CleanAllKeeps(all: seq<RawMcq>)
    ensures forall k :: Mentions(all, k) <==> Mentions(CleanAll(all), k)
    ensures forall k :: AnyTruthyAnswer(all, k) <==> AnyTruthyAnswer(CleanAll(all), k)
  {
    var ms := CleanAll(all);
    forall k | Mentions(all, k) ensures Mentions(ms, k) {
      var i :| 0 <= i < |all| && all[i].number == k;
      assert ms[i].number == k;
    }
    forall k | AnyTruthyAnswer(all, k) ensures AnyTruthyAnswer(ms, k) {
      var i :| 0 <= i < |all| && all[i].number == k && Mcq.Truthy(all[i].answer);
      assert ms[i].number == k && Mcq.Truthy(ms[i].answer);
    }
  }

  /** Each position of the values list holds the entry kept for its key. */
  lemma ValuesByKey(d: Dict<RawMcq>)
    requires DistinctKeys(d)
    requires forall k :: HasKey(d, k) ==> Get(d, k).value.number == k
    ensures forall j :: 0 <= j < |d| ==> Values(d)[j] == Get(d, d[j].0).value && Values(d)[j].number == d[j].0
  {
    forall j | 0 <= j < |d| ensures Values(d)[j] == Get(d, d[j].0).value {
      DistinctGet(d, j);
    }
  }

  /** The merged list has one entry per distinct question number that
      occurs, and no other. */
  lemma MergeDuplicatesNumbers(all: seq<RawMcq>)
    ensures forall i, j :: 0 <= i < j < |MergeDuplicates(all)| ==> MergeDuplicates(all)[i].number != MergeDuplicates(all)[j].number
    ensures forall k :: Mentions(all, k) <==> Mentions(MergeDuplicates(all), k)
  {
    var ms := CleanAll(all);
    var d := Dedup(ms);
    var out := MergeDuplicates(all);
    DedupKeys(ms);
    CleanAllKeeps(all);
    ValuesByKey(d);
    forall k | Mentions(all, k) ensures Mentions(out, k) {
      var j :| 0 <= j < |d| && d[j].0 == k;
    }
    forall k | Mentions(out, k) ensures Mentions(all, k) {
      var j :| 0 <= j < |out| && out[j].number == k;
      assert HasKey(d, k);
    }
  }

  /** For each copy the merged list holds an entry that keeps its number,
      has a truthy key iff some copy of the number had one, and keeps its
      cleaned text length and its truthy options. */
  lemma MergeDuplicatesKeeps(all: seq<RawMcq>)
    ensures forall i :: 0 <= i < |all| ==> HasKept(MergeDuplicates(all), all, i)
  {
    var ms := CleanAll(all);
    var d := Dedup(ms);
    var out := MergeDuplicates(all);
    DedupKeys(ms);
    DedupAnswer(ms);
    DedupCovers(ms);
    CleanAllKeeps(all);
    ValuesByKey(d);
    forall i | 0 <= i < |all| ensures HasKept(out, all, i) {
      var k := all[i].number;
      assert Covers(d, ms[i]);
      assert Mentions(ms, k);
      var j :| 0 <= j < |d| && d[j].0 == k;
      assert out[j] == Get(d, k).value;
      assert KeptFor(out[j], all, i);
    }
  }

  // ---------------------------------------------------------------------------
  // Page ranges and chunks

  const CHUNK_SIZE := 5
  const OVERLAP := 2

  /** `end_page`: `max_pages` pages from the start when it is given and
      non-zero, never past the document. */
  function PageRangeEnd(start: nat, maxPages: Option<nat>, pageCount: nat): (r: nat)
    ensures r <= pageCount
    ensures maxPages.Some? && maxPages.value != 0 && start + maxPages.value <= pageCount ==> r == start + maxPages.value
    ensures (maxPages.None? || maxPages == Some(0) || start + maxPages.value >= pageCount) ==> r == pageCount
  {
    var wanted := if maxPages.Some? && maxPages.value != 0 then start + maxPages.value else pageCount;
    if wanted < pageCount then wanted else pageCount
  }

  /** `range(start_page, end_page, chunk_size - overlap)`. */
  function ChunkStarts(start: int, end: int): (r: seq<int>)
    ensures forall i :: 0 <= i < |r| ==> r[i] == start + (CHUNK_SIZE - OVERLAP) * i && r[i] < end
    ensures start < end ==> |r| > 0 && r[|r| - 1] + (CHUNK_SIZE - OVERLAP) >= end
    ensures start >= end ==> r == []
    decreases end - start
  {
    if start >= end then [] else [start] + ChunkStarts(start + (CHUNK_SIZE - OVERLAP), end)
  }

  /** `end_chunk = min(page_num + chunk_size, end_page)`. */
  function ChunkEnd(p: int, end: int): int {
    if p + CHUNK_SIZE < end then p + CHUNK_SIZE else end
  }

  /** Every page of the range lies in some chunk, and each untruncated chunk
      overlaps the next by two pages. */
  lemma ChunksCoverPages(start: int, end: int, q: int)
    requires start <= q < end
    ensures exists i :: 0 <= i < |ChunkStarts(start, end)| && InChunk(ChunkStarts(start, end)[i], end, q)
    ensures forall i :: 0 <= i < |ChunkStarts(start, end)| - 1 && ChunkStarts(start, end)[i] + CHUNK_SIZE <= end ==>
      ChunkEnd(ChunkStarts(start, end)[i], end) - ChunkStarts(start, end)[i + 1] == OVERLAP
  {
    var r := ChunkStarts(start, end);
    var i := (q - start) / (CHUNK_SIZE - OVERLAP);
    assert i < |r|;
    assert r[i] == start + 3 * i;
    assert InChunk(r[i], end, q);
  }

  predicate InChunk(p: int, end: int, q: int) {
    p <= q < ChunkEnd(p, end)
  }

  // ---------------------------------------------------------------------------
  // format_mcqs_for_display

  /** A record as loaded: each key may be missing (outer None), and a value
      may be JSON null (inner None). */
  datatype Record = Record(
    number: Option<string>,
    text: Option<string>,
    options: Option<Dict<Option<string>>>,
    answer: Option<Option<string>>)

  datatype Formatted = Formatted(question: string, options: seq<string>)

  /** `f"{value}"` of a string or None. */
  function PyStr(v: Option<string>): string {
    if v.None? then "None" else v.value
  }

  function FormatOptions(opts: Dict<Option<string>>): seq<string> {
    seq(|opts|, i requires 0 <= i < |opts| => opts[i].0 + ") " + PyStr(opts[i].1))
  }

  /** `format_mcqs_for_display(mcqs)`: a record missing its number, text or
      options is skipped by the KeyError handler; one missing only its answer
      has its entry appended before the handler fires, so it gets no answer
      line. */
  function FormatForDisplay(ms: seq<Record>): (r: (seq<Formatted>, seq<string>))
    ensures |r.1| <= |r.0| <= |ms|
    decreases |ms|
  {
    if ms == [] then ([], [])
    else
      var prev := FormatForDisplay(ms[..|ms| - 1]);
      var m := ms[|ms| - 1];
      if m.number.None? || m.text.None? || m.options.None? then prev
      else
        var f := prev.0 + [Formatted(m.number.value + " " + m.text.value, FormatOptions(m.options.value))];
        if m.answer.None? then (f, prev.1)
        else (f, prev.1 + [m.number.value + ": " + PyStr(m.answer.value)])
  }

  predicate Complete(m: Record) {
    m.number.Some? && m.text.Some? && m.options.Some? && m.answer.Some?
  }

  /** With every key present, each record gives its entry and its answer
      line, in order. */
  lemma {:induction false} FormatCompleteRecords(ms: seq<Record>)
    requires forall i :: 0 <= i < |ms| ==> Complete(ms[i])
    ensures |FormatForDisplay(ms).0| == |FormatForDisplay(ms).1| == |ms|
    ensures forall i :: 0 <= i < |ms| && Complete(ms[i]) ==>
      && FormatForDisplay(ms).0[i].question == ms[i].number.value + " " + ms[i].text.value
      && FormatForDisplay(ms).1[i] == ms[i].number.value + ": " + PyStr(ms[i].answer.value)
    decreases |ms|
  {
    if ms != [] {
      var init := ms[..|ms| - 1];
      assert forall i :: 0 <= i < |init| ==> init[i] == ms[i];
      FormatCompleteRecords(init);
    }
  }

  // ---------------------------------------------------------------------------
  // Highlighted-answer fill

  const CHECK_MARK := "\U{2713}"

  /** The option text occurs emphasised, or with an asterisk or check mark on
      either side, in the source text. */
  predicate Marked(t: string, original: string) {
    || Text.Contains(original, "<<EMPHASIS>>" + t + "<<END_EMPHASIS>>")
    || Text.Contains(original, "*" + t)
    || Text.Contains(original, CHECK_MARK + t)
    || Text.Contains(original, t + "*")
    || Text.Contains(original, t + CHECK_MARK)
  }

  predicate Candidate(entry: (string, Option<string>), original: string) {
    Mcq.Truthy(entry.1) && Marked(entry.1.value, original)
  }

  predicate FirstCandidate(opts: Dict<Option<string>>, original: string, i: nat)
    requires i < |opts|
  {
    Candidate(opts[i], original) && forall j :: 0 <= j < i ==> !Candidate(opts[j], original)
  }

  /** The first option, in dict order, that is marked. */
  function FirstMarked(opts: Dict<Option<string>>, original: string): (r: Option<nat>)
    ensures r.None? <==> forall i :: 0 <= i < |opts| ==> !Candidate(opts[i], original)
    ensures r.Some? ==> r.value < |opts| && Candidate(opts[r.value], original)
    ensures r.Some? ==> forall j :: 0 <= j < r.value ==> !Candidate(opts[j], original)
    decreases |opts|
  {
    if opts == [] then None
    else if Candidate(opts[0], original) then Some(0)
    else
      assert forall i :: 1 <= i < |opts| ==> opts[1..][i - 1] == opts[i];
      match FirstMarked(opts[1..], original)
      case None => None
      case Some(i) => Some(i + 1)
  }

  /** The fill of one MCQ: only a falsy key is replaced, by the first marked
      option's letter; everything else is kept. */
  function HighlightFill(m: RawMcq, original: string): (r: RawMcq)
    ensures r.number == m.number && r.text == m.text && r.options == m.options
    ensures Mcq.Truthy(m.answer) ==> r == m
    ensures (forall i :: 0 <= i < |m.options| ==> !Candidate(m.options[i], original)) ==> r == m
    ensures r != m ==> exists i :: (0 <= i < |m.options| && FirstCandidate(m.options, original, i) && r.answer == Some(m.options[i].0))
    ensures !Mcq.Truthy(m.answer) && (exists i :: 0 <= i < |m.options| && Candidate(m.options[i], original)) ==>
      exists i :: 0 <= i < |m.options| && FirstCandidate(m.options, original, i) && r == m.(answer := Some(m.options[i].0))
  {
    if Mcq.Truthy(m.answer) then m
    else match FirstMarked(m.options, original)
      case None => m
      case Some(i) => m.(answer := Some(m.options[i].0))
  }

  /** Filling twice is filling once. */
  lemma HighlightFillIdempotent(m: RawMcq, original: string)
    ensures HighlightFill(HighlightFill(m, original), original) == HighlightFill(m, original)
  {
  }
}
