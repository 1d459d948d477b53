/** String helpers shared by the browser and the Python scripts: character
    classes, trimming, searching, decimal rendering, and the two replace
    operations the scripts use. Character classes are the ASCII part of the
    classes JavaScript and Python use. */
module Text {
  import opened Wrappers

  /** Whitespace as `String.prototype.trim`, `str.strip` and `str.split()` see it. */
  predicate IsSpace(c: char) {
    c == ' ' || c == '\t' || c == '\n' || c == '\r' || c == '\U{0B}' || c == '\U{0C}'
  }

  predicate IsDigit(c: char) { '0' <= c <= '9' }
  predicate IsLower(c: char) { 'a' <= c <= 'z' }
  predicate IsUpper(c: char) { 'A' <= c <= 'Z' }
  predicate IsAlpha(c: char) { IsLower(c) || IsUpper(c) }
  predicate IsAlnum(c: char) { IsAlpha(c) || IsDigit(c) }

  function ToLower(c: char): char {
    if IsUpper(c) then (c as int + 32) as char else c
  }

  function ToUpper(c: char): char {
    if IsLower(c) then (c as int - 32) as char else c
  }

  /** `str.lower()` / `String.prototype.toLowerCase()`. */
  function Lower(s: string): string {
    seq(|s|, i requires 0 <= i < |s| => ToLower(s[i]))
  }

  /** `str.upper()`. */
  function Upper(s: string): string {
    seq(|s|, i requires 0 <= i < |s| => ToUpper(s[i]))
  }

  lemma LowerIdempotent(s: string)
    ensures Lower(Lower(s)) == Lower(s)
  {
    assert forall i :: 0 <= i < |s| ==> ToLower(ToLower(s[i])) == ToLower(s[i]);
  }

  lemma LowerConcat(a: string, b: string)
    ensures Lower(a + b) == Lower(a) + Lower(b)
  {
  }

  predicate StartsWith(s: string, prefix: string) {
    |prefix| <= |s| && s[..|prefix|] == prefix
  }

  predicate EndsWith(s: string, suffix: string) {
    |suffix| <= |s| && s[|s| - |suffix|..] == suffix
  }

  /** `t in s` for strings: t occurs somewhere in s. */
  predicate Contains(s: string, t: string)
    decreases |s|
  {
    StartsWith(s, t) || (|s| > 0 && Contains(s[1..], t))
  }

  /** Removes leading whitespace: the suffix of s after its whitespace run. */
  function TrimStart(s: string): (r: string)
    ensures |r| <= |s| && r == s[|s| - |r|..]
    ensures r == [] || !IsSpace(r[0])
    ensures forall i :: 0 <= i < |s| - |r| ==> IsSpace(s[i])
  {
    if |s| > 0 && IsSpace(s[0]) then TrimStart(s[1..]) else s
  }

  /** Removes trailing whitespace: the prefix of s before its final whitespace run. */
  function TrimEnd(s: string): (r: string)
    ensures |r| <= |s| && r == s[..|r|]
    ensures r == [] || !IsSpace(r[|r| - 1])
    ensures forall i :: |r| <= i < |s| ==> IsSpace(s[i])
  {
    if |s| > 0 && IsSpace(s[|s| - 1]) then TrimEnd(s[..|s| - 1]) else s
  }

  /** `String.prototype.trim()` and `str.strip()`. */
  function Strip(s: string): string {
    TrimEnd(TrimStart(s))
  }

  /** A string is blank when it holds whitespace only. */
  predicate IsBlank(s: string) {
    forall i :: 0 <= i < |s| ==> IsSpace(s[i])
  }

  /** Stripping yields the empty string exactly for blank strings, and a
      non-blank string strips to something that starts and ends with a
      non-whitespace character. */
  lemma StripEmptyIffBlank(s: string)
    ensures Strip(s) == [] <==> IsBlank(s)
    ensures Strip(s) != [] ==> !IsSpace(Strip(s)[0]) && !IsSpace(Strip(s)[|Strip(s)| - 1])
  {
    var t := TrimStart(s);
    var k := |s| - |t|;
    if Strip(s) == [] {
      assert t == [];
      assert IsBlank(s);
    }
    if t != [] {
      assert s[k] == t[0];
      assert !IsBlank(s);
    }
    if Strip(s) != [] {
      assert Strip(s)[0] == t[0];
    }
  }

  /** A string that starts and ends with non-whitespace strips to itself. */
  lemma StripNoOp(s: string)
    requires s == [] || (!IsSpace(s[0]) && !IsSpace(s[|s| - 1]))
    ensures Strip(s) == s
  {
  }

  /** First index of c in s (`str.find` / `indexOf`), None when absent. */
  function Find(s: string, c: char): (r: Option<nat>)
    ensures r.None? <==> c !in s
    ensures r.Some? ==> r.value < |s| && s[r.value] == c && c !in s[..r.value]
  {
    if |s| == 0 then None
    else if s[0] == c then Some(0)
    else match Find(s[1..], c)
      case None => None
      case Some(i) => assert s[1..][..i] == s[1..i + 1]; Some(i + 1)
  }

  /** Last index of c in s (`str.rfind`), None when absent. */
  function RFind(s: string, c: char): (r: Option<nat>)
    ensures r.None? <==> c !in s
    ensures r.Some? ==> r.value < |s| && s[r.value] == c && c !in s[r.value + 1..]
  {
    if |s| == 0 then None
    else if s[|s| - 1] == c then Some(|s| - 1)
    else match RFind(s[..|s| - 1], c)
      case None => None
      case Some(i) => assert s[i + 1..] == s[..|s| - 1][i + 1..] + [s[|s| - 1]]; Some(i)
  }

  // ---------------------------------------------------------------------------
  // Decimal rendering of integers (`String(n)` in JavaScript, `str(n)` in Python)

  function DigitChar(d: nat): char
    requires d < 10
  {
    ('0' as int + d) as char
  }

  function DigitValue(c: char): nat
    requires IsDigit(c)
  {
    c as int - '0' as int
  }

  /** The number a string of decimal digits denotes. */
  function DigitsValue(s: string): nat
    requires forall i :: 0 <= i < |s| ==> IsDigit(s[i])
  {
    if s == [] then 0 else DigitsValue(s[..|s| - 1]) * 10 + DigitValue(s[|s| - 1])
  }

  /** Decimal digits of n, most significant first, without leading zeros. */
  function NatToString(n: nat): (r: string)
    ensures |r| > 0
    ensures forall i :: 0 <= i < |r| ==> IsDigit(r[i])
    ensures r[0] == '0' ==> n == 0 && |r| == 1
    ensures n >= 10 ==> |r| >= 2
  {
    if n < 10 then [DigitChar(n)] else NatToString(n / 10) + [DigitChar(n % 10)]
  }

  /** Reading the digits back gives the number: decimal rendering is injective. */
  lemma {:induction false} NatToStringRoundTrip(n: nat)
    ensures DigitsValue(NatToString(n)) == n
  {
    if n >= 10 {
      var s := NatToString(n);
      NatToStringRoundTrip(n / 10);
      assert s[..|s| - 1] == NatToString(n / 10);
    }
  }

  function IntToString(i: int): string {
    if i < 0 then "-" + NatToString(-i) else NatToString(i)
  }

  /** `String(n).padStart(2, '0')`: pads with zeros on the left to length 2. */
  function PadTwo(s: string): (r: string)
    ensures |r| == if |s| < 2 then 2 else |s|
    ensures EndsWith(r, s)
    ensures forall i :: 0 <= i < |r| - |s| ==> r[i] == '0'
  {
    if |s| >= 2 then s else seq(2 - |s|, _ => '0') + s
  }

  // ---------------------------------------------------------------------------
  // Replacing

  /** `s.replace(c, rep)` for a one-character pattern (every occurrence). */
  function ReplaceChar(s: string, c: char, rep: string): (r: string)
    ensures c !in rep ==> c !in r
    ensures c !in s ==> r == s
  {
    if s == [] then [] else (if s[0] == c then rep else [s[0]]) + ReplaceChar(s[1..], c, rep)
  }

  lemma {:induction false} ReplaceCharConcat(a: string, b: string, c: char, rep: string)
    ensures ReplaceChar(a + b, c, rep) == ReplaceChar(a, c, rep) + ReplaceChar(b, c, rep)
  {
    if a == [] {
      assert a + b == b;
    } else {
      var h := if a[0] == c then rep else [a[0]];
      assert (a + b)[0] == a[0];
      assert (a + b)[1..] == a[1..] + b;
      ReplaceCharConcat(a[1..], b, c, rep);
      calc {
        ReplaceChar(a + b, c, rep);
        h + ReplaceChar(a[1..] + b, c, rep);
        h + (ReplaceChar(a[1..], c, rep) + ReplaceChar(b, c, rep));
        (h + ReplaceChar(a[1..], c, rep)) + ReplaceChar(b, c, rep);
        ReplaceChar(a, c, rep) + ReplaceChar(b, c, rep);
      }
    }
  }

  /** Python's `s.replace('\\n', rep)`: the two-character sequence backslash, n
      is replaced left to right, without overlaps. */
  function ReplaceEscapedNewline(s: string, rep: string): string
    decreases |s|
  {
    if |s| >= 2 && s[0] == '\\' && s[1] == 'n' then rep + ReplaceEscapedNewline(s[2..], rep)
    else if s == [] then []
    else [s[0]] + ReplaceEscapedNewline(s[1..], rep)
  }

  /** Replacing distributes over a concatenation that does not glue a backslash
      at the end of the left part to an n at the start of the right part. */
  lemma {:induction false} ReplaceEscapedNewlineConcat(a: string, t: string, rep: string)
    requires !(|a| > 0 && a[|a| - 1] == '\\' && |t| > 0 && t[0] == 'n')
    ensures ReplaceEscapedNewline(a + t, rep) == ReplaceEscapedNewline(a, rep) + ReplaceEscapedNewline(t, rep)
    decreases |a|
  {
    if a == [] {
      assert a + t == t;
    } else if |a| >= 2 && a[0] == '\\' && a[1] == 'n' {
      ReplaceEscapedNewlineConcat(a[2..], t, rep);
      ReplaceConcatEscaped(a, t, rep);
    } else if |a| == 1 {
      ReplaceConcatSingle(a, t, rep);
    } else {
      ReplaceEscapedNewlineConcat(a[1..], t, rep);
      ReplaceConcatPlain(a, t, rep);
    }
  }

  /** One unfolding of the replacement at an escaped newline. */
  lemma ReplaceEscapedHead(s: string, rep: string)
    requires |s| >= 2 && s[0] == '\\' && s[1] == 'n'
    ensures ReplaceEscapedNewline(s, rep) == rep + ReplaceEscapedNewline(s[2..], rep)
  {
  }

  /** One unfolding of the replacement at any other first character. */
  lemma ReplacePlainHead(s: string, rep: string)
    requires |s| > 0 && !(|s| >= 2 && s[0] == '\\' && s[1] == 'n')
    ensures ReplaceEscapedNewline(s, rep) == [s[0]] + ReplaceEscapedNewline(s[1..], rep)
  {
  }

  lemma ConcatAssoc(r: string, x: string, y: string)
    ensures r + (x + y) == (r + x) + y
  {
  }

  lemma ReplaceConcatEscaped(a: string, t: string, rep: string)
    requires |a| >= 2 && a[0] == '\\' && a[1] == 'n'
    requires ReplaceEscapedNewline(a[2..] + t, rep) == ReplaceEscapedNewline(a[2..], rep) + ReplaceEscapedNewline(t, rep)
    ensures ReplaceEscapedNewline(a + t, rep) == ReplaceEscapedNewline(a, rep) + ReplaceEscapedNewline(t, rep)
  {
    var at := a + t;
    assert at[0] == '\\' && at[1] == 'n';
    assert at[2..] == a[2..] + t;
    ReplaceEscapedHead(at, rep);
    ReplaceEscapedHead(a, rep);
    ConcatAssoc(rep, ReplaceEscapedNewline(a[2..], rep), ReplaceEscapedNewline(t, rep));
  }

  lemma ReplaceConcatPlain(a: string, t: string, rep: string)
    requires |a| >= 2 && !(a[0] == '\\' && a[1] == 'n')
    requires ReplaceEscapedNewline(a[1..] + t, rep) == ReplaceEscapedNewline(a[1..], rep) + ReplaceEscapedNewline(t, rep)
    ensures ReplaceEscapedNewline(a + t, rep) == ReplaceEscapedNewline(a, rep) + ReplaceEscapedNewline(t, rep)
  {
    var at := a + t;
    assert at[0] == a[0] && at[1] == a[1];
    assert at[1..] == a[1..] + t;
    ReplacePlainHead(at, rep);
    ReplacePlainHead(a, rep);
    ConcatAssoc([a[0]], ReplaceEscapedNewline(a[1..], rep), ReplaceEscapedNewline(t, rep));
  }

  lemma ReplaceConcatSingle(a: string, t: string, rep: string)
    requires |a| == 1 && !(a[0] == '\\' && |t| > 0 && t[0] == 'n')
    ensures ReplaceEscapedNewline(a + t, rep) == ReplaceEscapedNewline(a, rep) + ReplaceEscapedNewline(t, rep)
  {
    var at := a + t;
    assert at[0] == a[0] && at[1..] == t;
    assert a[1..] == [];
  }

  /** No backslash is directly followed by an n. */
  ghost predicate NoEscapedNewline(t: string) {
    forall i :: 0 <= i < |t| - 1 ==> !(t[i] == '\\' && t[i + 1] == 'n')
  }

  /** A replacement free of backslashes and n's leaves no escaped newline
      behind; the result starts with an n only where the input does. */
  lemma {:induction false} EscapedNewlinesGone(s: string, rep: string)
    requires |rep| > 0 && '\\' !in rep && 'n' !in rep
    ensures NoEscapedNewline(ReplaceEscapedNewline(s, rep))
    ensures |ReplaceEscapedNewline(s, rep)| > 0 && ReplaceEscapedNewline(s, rep)[0] == 'n' ==> |s| > 0 && s[0] == 'n'
    decreases |s|
  {
    if |s| >= 2 && s[0] == '\\' && s[1] == 'n' {
      EscapedNewlinesGone(s[2..], rep);
      var t := ReplaceEscapedNewline(s[2..], rep);
      var r := rep + t;
      forall i | 0 <= i < |r| - 1 ensures !(r[i] == '\\' && r[i + 1] == 'n') {
        if i < |rep| {
          assert r[i] == rep[i];
        } else {
          assert r[i] == t[i - |rep|] && r[i + 1] == t[i + 1 - |rep|];
        }
      }
      assert r[0] == rep[0];
    } else if s != [] {
      EscapedNewlinesGone(s[1..], rep);
      var t := ReplaceEscapedNewline(s[1..], rep);
      var r := [s[0]] + t;
      forall i | 0 <= i < |r| - 1 ensures !(r[i] == '\\' && r[i + 1] == 'n') {
        if i > 0 {
          assert r[i] == t[i - 1] && r[i + 1] == t[i];
        } else {
          assert r[1] == t[0];
        }
      }
    }
  }

  /** Without escaped newlines there is nothing to replace. */
  lemma {:induction false} NoEscapedNewlineFixed(s: string, rep: string)
    requires NoEscapedNewline(s)
    ensures ReplaceEscapedNewline(s, rep) == s
    decreases |s|
  {
    if s != [] {
      assert NoEscapedNewline(s[1..]) by {
        forall i | 0 <= i < |s[1..]| - 1 ensures !(s[1..][i] == '\\' && s[1..][i + 1] == 'n') {
          assert s[1..][i] == s[i + 1] && s[1..][i + 1] == s[i + 2];
        }
      }
      NoEscapedNewlineFixed(s[1..], rep);
      assert [s[0]] + s[1..] == s;
    }
  }

  /** Keeps the characters satisfying p, in order. */
  function FilterChars(s: string, p: char -> bool): (r: string)
    ensures |r| <= |s|
    ensures forall i :: 0 <= i < |r| ==> p(r[i])
  {
    if s == [] then [] else (if p(s[0]) then [s[0]] else []) + FilterChars(s[1..], p)
  }

  lemma {:induction false} FilterCharsConcat(a: string, b: string, p: char -> bool)
    ensures FilterChars(a + b, p) == FilterChars(a, p) + FilterChars(b, p)
  {
    if a == [] {
      assert a + b == b;
    } else {
      var h := if p(a[0]) then [a[0]] else [];
      assert (a + b)[0] == a[0];
      assert (a + b)[1..] == a[1..] + b;
      FilterCharsConcat(a[1..], b, p);
      calc {
        FilterChars(a + b, p);
        h + FilterChars(a[1..] + b, p);
        h + (FilterChars(a[1..], p) + FilterChars(b, p));
        (h + FilterChars(a[1..], p)) + FilterChars(b, p);
        FilterChars(a, p) + FilterChars(b, p);
      }
    }
  }

  lemma {:induction false} FilterCharsAll(s: string, p: char -> bool)
    requires forall i :: 0 <= i < |s| ==> p(s[i])
    ensures FilterChars(s, p) == s
    decreases |s|
  {
    if s != [] {
      assert forall i :: 0 <= i < |s[1..]| ==> s[1..][i] == s[i + 1];
      FilterCharsAll(s[1..], p);
      assert [s[0]] + s[1..] == s;
    }
  }

  lemma {:induction false} FilterCharsNone(s: string, p: char -> bool)
    ensures FilterChars(s, p) == [] <==> forall i :: 0 <= i < |s| ==> !p(s[i])
    decreases |s|
  {
    if s != [] {
      FilterCharsNone(s[1..], p);
      assert forall i :: 1 <= i < |s| ==> s[1..][i - 1] == s[i];
    }
  }

  /** Filtering keeps a string whose every character passes, and empties one
      whose every character fails; an empty result means nothing passed. */
  lemma FilterCharsExtremes(s: string, p: char -> bool)
    ensures (forall i :: 0 <= i < |s| ==> p(s[i])) ==> FilterChars(s, p) == s
    ensures FilterChars(s, p) == [] <==> forall i :: 0 <= i < |s| ==> !p(s[i])
  {
    if forall i :: 0 <= i < |s| ==> p(s[i]) {
      FilterCharsAll(s, p);
    }
    FilterCharsNone(s, p);
  }

  // ---------------------------------------------------------------------------
  // Splitting on a separator character

  /** Python's `s.split(sep)` for a one-character separator: always at least one
      piece, none of which contains the separator. */
  function SplitOn(s: string, sep: char): (r: seq<string>)
    ensures |r| >= 1
    ensures forall i :: 0 <= i < |r| ==> sep !in r[i]
    decreases |s|
  {
    match Find(s, sep)
    case None => [s]
    case Some(i) => [s[..i]] + SplitOn(s[i + 1..], sep)
  }

  function JoinWith(parts: seq<string>, sep: char): string
    requires |parts| >= 1
  {
    if |parts| == 1 then parts[0] else parts[0] + [sep] + JoinWith(parts[1..], sep)
  }

  /** Joining the pieces with the separator gives back the original string. */
  lemma {:induction false} SplitJoinRoundTrip(s: string, sep: char)
    ensures JoinWith(SplitOn(s, sep), sep) == s
    decreases |s|
  {
    match Find(s, sep)
    case None =>
    case Some(i) =>
      var rest := SplitOn(s[i + 1..], sep);
      var parts := SplitOn(s, sep);
      assert parts == [s[..i]] + rest;
      assert parts[1..] == rest;
      SplitJoinRoundTrip(s[i + 1..], sep);
      calc {
        JoinWith(parts, sep);
        parts[0] + [sep] + JoinWith(parts[1..], sep);
        s[..i] + [sep] + s[i + 1..];
        { assert s[i] == sep; }
        s;
      }
  }

  /** The first occurrence of c in p + [c] + r is right after p when p lacks c. */
  lemma {:induction false} FindAfter(p: string, c: char, r: string)
    requires c !in p
    ensures Find(p + [c] + r, c) == Some(|p|)
  {
    if p == [] {
      assert p + [c] + r == [c] + r;
    } else {
      assert (p + [c] + r)[1..] == p[1..] + [c] + r;
      FindAfter(p[1..], c, r);
    }
  }

  /** The last occurrence of c in p + [c] + r is right after p when r lacks c. */
  lemma {:induction false} RFindBefore(p: string, c: char, r: string)
    requires c !in r
    ensures RFind(p + [c] + r, c) == Some(|p|)
    decreases |r|
  {
    var s := p + [c] + r;
    if r != [] {
      assert s[..|s| - 1] == p + [c] + r[..|r| - 1];
      assert s[|s| - 1] == r[|r| - 1];
      RFindBefore(p, c, r[..|r| - 1]);
    }
  }

  /** Splitting a join of separator-free pieces gives the pieces back. */
  lemma {:induction false} JoinSplitRoundTrip(parts: seq<string>, sep: char)
    requires |parts| >= 1
    requires forall i :: 0 <= i < |parts| ==> sep !in parts[i]
    ensures SplitOn(JoinWith(parts, sep), sep) == parts
    decreases |parts|
  {
    if |parts| > 1 {
      var p := parts[0];
      var rest := JoinWith(parts[1..], sep);
      var s := p + [sep] + rest;
      FindAfter(p, sep, rest);
      assert s[..|p|] == p;
      assert s[|p| + 1..] == rest;
      JoinSplitRoundTrip(parts[1..], sep);
      assert [p] + parts[1..] == parts;
    }
  }

  /** Leading zeros do not change the value of a digit string. */
  lemma {:induction false} DigitsValueZeroPrefix(z: string, s: string)
    requires forall i :: 0 <= i < |z| ==> z[i] == '0'
    requires forall i :: 0 <= i < |s| ==> IsDigit(s[i])
    ensures forall i :: 0 <= i < |z + s| ==> IsDigit((z + s)[i])
    ensures DigitsValue(z + s) == DigitsValue(s)
    decreases |z| + |s|
  {
    if s == [] {
      assert z + s == z;
      if z != [] {
        DigitsValueZeroPrefix(z[..|z| - 1], []);
        assert z[..|z| - 1] + [] == z[..|z| - 1];
      }
    } else {
      DigitsValueZeroPrefix(z, s[..|s| - 1]);
      assert (z + s)[..|z + s| - 1] == z + s[..|s| - 1];
    }
  }

  /** Zero padding keeps the denoted value. */
  lemma PadTwoValue(s: string)
    requires forall i :: 0 <= i < |s| ==> IsDigit(s[i])
    ensures forall i :: 0 <= i < |PadTwo(s)| ==> IsDigit(PadTwo(s)[i])
    ensures DigitsValue(PadTwo(s)) == DigitsValue(s)
  {
    if |s| < 2 {
      DigitsValueZeroPrefix(seq(2 - |s|, _ => '0'), s);
    }
  }

  // ---------------------------------------------------------------------------
  // Whitespace collapsing: Python's `' '.join(s.split())`

  /** Scanner state: the output so far, and whether a whitespace run has been
      seen after some output and not yet emitted as a single space. */
  datatype CollapseState = CollapseState(out: string, pending: bool)

  const CollapseStart := CollapseState([], false)

  function CollapseStep(st: CollapseState, c: char): CollapseState {
    if IsSpace(c) then CollapseState(st.out, |st.out| > 0)
    else CollapseState(st.out + (if st.pending then " " else "") + [c], false)
  }

  function CollapseRun(st: CollapseState, s: string): CollapseState
    decreases |s|
  {
    if s == [] then st else CollapseStep(CollapseRun(st, s[..|s| - 1]), s[|s| - 1])
  }

  /** `' '.join(s.split())`: whitespace runs between words become one space;
      leading and trailing whitespace disappears. */
  function Collapse(s: string): string {
    CollapseRun(CollapseStart, s).out
  }

  /** The shape of a collapsed string: the only whitespace is ' ', never at
      either end and never twice in a row. */
  ghost predicate Canonical(t: string) {
    && (forall i :: 0 <= i < |t| && IsSpace(t[i]) ==> t[i] == ' ')
    && (|t| > 0 ==> t[0] != ' ' && t[|t| - 1] != ' ')
    && (forall i :: 0 <= i < |t| - 1 && t[i] == ' ' ==> t[i + 1] != ' ')
  }

  /** The characters of s that are not whitespace, in order. */
  function NonSpace(s: string): string {
    FilterChars(s, NotSpace)
  }

  predicate NotSpace(c: char) { !IsSpace(c) }

  ghost predicate GoodState(st: CollapseState) {
    Canonical(st.out) && (st.pending ==> |st.out| > 0)
  }

  lemma CollapseSpaceStep(st: CollapseState, c: char)
    requires GoodState(st) && IsSpace(c)
    ensures GoodState(CollapseStep(st, c))
    ensures NonSpace(CollapseStep(st, c).out) == NonSpace(st.out) + NonSpace([c])
  {
    assert [c][1..] == [];
    assert NonSpace([c]) == [];
  }

  lemma WordStepNonSpace(st: CollapseState, c: char)
    requires !IsSpace(c)
    ensures NonSpace(CollapseStep(st, c).out) == NonSpace(st.out) + [c]
  {
    assert [c][1..] == [];
    assert NonSpace([c]) == [c];
    var gap: string := if st.pending then " " else "";
    assert NonSpace(gap) == [] by {
      if st.pending {
        assert gap[1..] == [];
      }
    }
    FilterCharsConcat(st.out, gap, NotSpace);
    FilterCharsConcat(st.out + gap, [c], NotSpace);
    assert CollapseStep(st, c).out == st.out + gap + [c];
  }

  lemma WordStepCanonical(st: CollapseState, c: char)
    requires GoodState(st) && !IsSpace(c)
    ensures Canonical(CollapseStep(st, c).out)
  {
    var gap: string := if st.pending then " " else "";
    var o := st.out + gap + [c];
    assert CollapseStep(st, c).out == o;
    assert forall i :: 0 <= i < |o| && IsSpace(o[i]) ==> o[i] == ' ' by {
      forall i | 0 <= i < |o| && IsSpace(o[i]) ensures o[i] == ' ' {
        if i < |st.out| {
          assert o[i] == st.out[i];
        }
      }
    }
    assert o[0] != ' ' by {
      if |st.out| > 0 {
        assert o[0] == st.out[0];
      }
    }
    forall i | 0 <= i < |o| - 1 && o[i] == ' ' ensures o[i + 1] != ' ' {
      if i < |st.out| - 1 {
        assert o[i] == st.out[i] && o[i + 1] == st.out[i + 1];
      }
    }
  }

  lemma CollapseWordStep(st: CollapseState, c: char)
    requires GoodState(st) && !IsSpace(c)
    ensures GoodState(CollapseStep(st, c))
    ensures NonSpace(CollapseStep(st, c).out) == NonSpace(st.out) + NonSpace([c])
  {
    WordStepNonSpace(st, c);
    WordStepCanonical(st, c);
    assert [c][1..] == [];
    assert NonSpace([c]) == [c];
  }

  /** One scanner step keeps the state good and passes every
      non-whitespace character through. */
  lemma CollapseStepGood(st: CollapseState, c: char)
    requires GoodState(st)
    ensures GoodState(CollapseStep(st, c))
    ensures NonSpace(CollapseStep(st, c).out) == NonSpace(st.out) + NonSpace([c])
  {
    if IsSpace(c) {
      CollapseSpaceStep(st, c);
    } else {
      CollapseWordStep(st, c);
    }
  }

  lemma {:induction false} CollapseRunGood(s: string)
    ensures GoodState(CollapseRun(CollapseStart, s))
    ensures NonSpace(CollapseRun(CollapseStart, s).out) == NonSpace(s)
    decreases |s|
  {
    if s != [] {
      var init := s[..|s| - 1];
      var c := s[|s| - 1];
      CollapseRunGood(init);
      CollapseStepGood(CollapseRun(CollapseStart, init), c);
      assert s == init + [c];
      FilterCharsConcat(init, [c], NotSpace);
    }
  }

  /** Collapsing always yields the canonical shape and keeps every
      non-whitespace character in order. */
  lemma CollapseCanonical(s: string)
    ensures Canonical(Collapse(s))
    ensures NonSpace(Collapse(s)) == NonSpace(s)
  {
    CollapseRunGood(s);
  }

  lemma {:induction false} CollapseRunConcat(st: CollapseState, x: string, y: string)
    ensures CollapseRun(st, x + y) == CollapseRun(CollapseRun(st, x), y)
    decreases |y|
  {
    if y == [] {
      assert x + y == x;
    } else {
      assert (x + y)[..|x + y| - 1] == x + y[..|y| - 1];
      CollapseRunConcat(st, x, y[..|y| - 1]);
    }
  }

  /** Doubling a whitespace character anywhere does not change the result. */
  lemma CollapseDoubledSpace(a: string, c: char, d: char, b: string)
    requires IsSpace(c) && IsSpace(d)
    ensures Collapse(a + [c, d] + b) == Collapse(a + [c] + b)
  {
    CollapseRunConcat(CollapseStart, a + [c], b);
    CollapseRunConcat(CollapseStart, a + [c, d], b);
    CollapseRunConcat(CollapseStart, a + [c], [d]);
    assert a + [c] + [d] == a + [c, d];
  }

  /** Leading whitespace does not change the result. */
  lemma CollapseLeadingSpace(c: char, s: string)
    requires IsSpace(c)
    ensures Collapse([c] + s) == Collapse(s)
  {
    CollapseRunConcat(CollapseStart, [c], s);
    assert CollapseRun(CollapseStart, [c]) == CollapseStart by {
      assert [c][..0] == [];
    }
  }

  /** Which whitespace character separates two parts does not matter. */
  lemma CollapseSpaceChoice(a: string, c: char, d: char, b: string)
    requires IsSpace(c) && IsSpace(d)
    ensures Collapse(a + [c] + b) == Collapse(a + [d] + b)
  {
    CollapseRunConcat(CollapseStart, a + [c], b);
    CollapseRunConcat(CollapseStart, a + [d], b);
    CollapseRunConcat(CollapseStart, a, [c]);
    CollapseRunConcat(CollapseStart, a, [d]);
    assert [c][..0] == [] && [d][..0] == [];
  }

  /** The scan keeps an input without escaped newlines free of them: a new
      character is glued directly only to the input character before it. */
  lemma {:induction false} CollapseRunNoEscape(s: string)
    requires NoEscapedNewline(s)
    ensures NoEscapedNewline(CollapseRun(CollapseStart, s).out)
    ensures var st := CollapseRun(CollapseStart, s);
      |st.out| > 0 && !st.pending ==> |s| > 0 && st.out[|st.out| - 1] == s[|s| - 1]
    decreases |s|
  {
    if s != [] {
      var init := s[..|s| - 1];
      var c := s[|s| - 1];
      assert NoEscapedNewline(init) by {
        forall i | 0 <= i < |init| - 1 ensures !(init[i] == '\\' && init[i + 1] == 'n') {
          assert init[i] == s[i] && init[i + 1] == s[i + 1];
        }
      }
      CollapseRunNoEscape(init);
      var st := CollapseRun(CollapseStart, init);
      if !IsSpace(c) {
        var gap: string := if st.pending then " " else "";
        var o := st.out + gap + [c];
        forall i | 0 <= i < |o| - 1 ensures !(o[i] == '\\' && o[i + 1] == 'n') {
          if i < |st.out| - 1 {
            assert o[i] == st.out[i] && o[i + 1] == st.out[i + 1];
          } else if i == |st.out| - 1 && !st.pending {
            assert o[i] == s[|s| - 2] && o[i + 1] == s[|s| - 1];
          }
        }
      }
    }
  }

  lemma CollapseNoEscape(s: string)
    requires NoEscapedNewline(s)
    ensures NoEscapedNewline(Collapse(s))
  {
    CollapseRunNoEscape(s);
  }

  lemma {:induction false} CollapseRunOfCanonical(t: string, k: nat)
    requires Canonical(t) && k <= |t|
    ensures CollapseRun(CollapseStart, t[..k])
         == if k > 0 && t[k - 1] == ' ' then CollapseState(t[..k - 1], true) else CollapseState(t[..k], false)
  {
    if k > 0 {
      CollapseRunOfCanonical(t, k - 1);
      assert t[..k][..k - 1] == t[..k - 1];
      if k >= 2 && t[k - 2] == ' ' {
        assert t[k - 1] != ' ';
        assert t[..k - 2] + " " + [t[k - 1]] == t[..k];
      } else {
        assert t[..k - 1] + [t[k - 1]] == t[..k];
      }
    }
  }

  /** A canonical string collapses to itself, so collapsing is idempotent. */
  lemma CollapseIdempotent(s: string)
    ensures Collapse(Collapse(s)) == Collapse(s)
  {
    var t := Collapse(s);
    CollapseCanonical(s);
    CollapseRunOfCanonical(t, |t|);
    assert t[..|t|] == t;
  }

  lemma CanonicalCollapsesToItself(t: string)
    requires Canonical(t)
    ensures Collapse(t) == t
  {
    CollapseRunOfCanonical(t, |t|);
    assert t[..|t|] == t;
  }
}
