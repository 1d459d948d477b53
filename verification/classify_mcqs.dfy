/** The subject classifier (classify_mcqs.py): the option lines of the
    prompt, the reading of the model's reply, the padding, and the batching
    of the whole list. The model call is a parameter that returns the reply
    text, or None when it raises. */
module ClassifyMcqs {
  import opened Wrappers
  import Text
  import opened Mcq
  import opened Dict
  import opened ExtractMcqs

  // ---------------------------------------------------------------------------
  // The prompt's option lines

  /** One `"{key}) {value}"` line per option with a truthy value, in dict
      order. */
  function OptionLines(options: Dict<Option<string>>): (r: seq<string>)
    ensures |r| <= |options|
    ensures (forall j :: 0 <= j < |options| ==> Truthy(options[j].1)) ==> |r| == |options|
    ensures (forall j :: 0 <= j < |options| ==> !Truthy(options[j].1)) ==> r == []
    ensures forall i :: 0 <= i < |r| ==> ListedOption(options, r[i])
    ensures forall j :: 0 <= j < |options| && Truthy(options[j].1) ==> OptionLine(options[j]) in r
    decreases |options|
  {
    if options == [] then []
    else
      var rest := OptionLines(options[1..]);
      TailLinesListed(options, rest);
      TailOptionsCovered(options, rest);
      if Truthy(options[0].1) then [OptionLine(options[0])] + rest else rest
  }

  /** The lines of the tail render options of the whole dict. */
  lemma TailLinesListed(options: Dict<Option<string>>, rest: seq<string>)
    requires options != []
    requires forall i :: 0 <= i < |rest| ==> ListedOption(options[1..], rest[i])
    ensures forall i :: 0 <= i < |rest| ==> ListedOption(options, rest[i])
  {
    forall i | 0 <= i < |rest| ensures ListedOption(options, rest[i]) {
      var j :| 0 <= j < |options[1..]| && Truthy(options[1..][j].1) && rest[i] == OptionLine(options[1..][j]);
      assert options[j + 1] == options[1..][j];
    }
  }

  /** Every truthy option after the first has its line among the tail's. */
  lemma TailOptionsCovered(options: Dict<Option<string>>, rest: seq<string>)
    requires options != []
    requires forall j :: 0 <= j < |options[1..]| && Truthy(options[1..][j].1) ==> OptionLine(options[1..][j]) in rest
    ensures forall j :: 1 <= j < |options| && Truthy(options[j].1) ==> OptionLine(options[j]) in rest
  {
    forall j | 1 <= j < |options| && Truthy(options[j].1) ensures OptionLine(options[j]) in rest {
      assert options[1..][j - 1] == options[j];
    }
  }

  function OptionLine(entry: (string, Option<string>)): string
    requires Truthy(entry.1)
  {
    entry.0 + ") " + entry.1.value
  }

  /** The line is the rendering of some option with a truthy value. */
  ghost predicate ListedOption(options: Dict<Option<string>>, line: string) {
    exists j :: 0 <= j < |options| && Truthy(options[j].1) && line == OptionLine(options[j])
  }

  // ---------------------------------------------------------------------------
  // Reading the reply

  const KNOWN: seq<string> := ["Surgery", "Medicine", "Gynae", "Paeds"]
  const UNKNOWN := "Unknown"

  /** The subject a stripped, upper-cased reply line names, by precedence. */
  function SubjectOfLine(line: string): (r: Option<string>)
    ensures var u := Text.Upper(Text.Strip(line));
      && (r.Some? <==> Text.Contains(u, "SURGERY") || Text.Contains(u, "MEDICINE") || Text.Contains(u, "GYNAE") || Text.Contains(u, "PAEDS"))
      && (r == Some("Surgery") <==> Text.Contains(u, "SURGERY"))
      && (r == Some("Medicine") <==> !Text.Contains(u, "SURGERY") && Text.Contains(u, "MEDICINE"))
      && (r == Some("Gynae") <==> !Text.Contains(u, "SURGERY") && !Text.Contains(u, "MEDICINE") && Text.Contains(u, "GYNAE"))
      && (r == Some("Paeds") <==> !Text.Contains(u, "SURGERY") && !Text.Contains(u, "MEDICINE") && !Text.Contains(u, "GYNAE") && Text.Contains(u, "PAEDS"))
    ensures r.Some? ==> r.value in KNOWN
  {
    var u := Text.Upper(Text.Strip(line));
    if Text.Contains(u, "SURGERY") then Some("Surgery")
    else if Text.Contains(u, "MEDICINE") then Some("Medicine")
    else if Text.Contains(u, "GYNAE") then Some("Gynae")
    else if Text.Contains(u, "PAEDS") then Some("Paeds")
    else None
  }

  /** The subjects of the lines that name one, in order. */
  function ParseLines(lines: seq<string>): (r: seq<string>)
    ensures |r| <= |lines|
    ensures forall i :: 0 <= i < |r| ==> r[i] in KNOWN
    decreases |lines|
  {
    if lines == [] then []
    else
      var init := lines[..|lines| - 1];
      match SubjectOfLine(lines[|lines| - 1])
      case Some(s) => ParseLines(init) + [s]
      case None => ParseLines(init)
  }

  /** Each line contributes its own subject or nothing, independently of the
      others. */
  lemma {:induction false} ParseLinesConcat(a: seq<string>, b: seq<string>)
    ensures ParseLines(a + b) == ParseLines(a) + ParseLines(b)
    decreases |b|
  {
    if b == [] {
      assert a + b == a;
    } else {
      assert (a + b)[..|a + b| - 1] == a + b[..|b| - 1];
      assert (a + b)[|a + b| - 1] == b[|b| - 1];
      ParseLinesConcat(a, b[..|b| - 1]);
    }
  }

  lemma ParseOneLine(line: string)
    ensures ParseLines([line]) == match SubjectOfLine(line) case Some(s) => [s] case None => []
  {
    assert [line][..0] == [];
  }

  /** The number of lines naming a subject. */
  function Naming(lines: seq<string>): nat
    decreases |lines|
  {
    if lines == [] then 0 else (if SubjectOfLine(lines[0]).Some? then 1 else 0) + Naming(lines[1..])
  }

  /** Exactly one subject per naming line, none for the others. */
  lemma {:induction false} ParseLinesCount(lines: seq<string>)
    ensures |ParseLines(lines)| == Naming(lines)
    decreases |lines|
  {
    if lines != [] {
      ParseLinesCount(lines[1..]);
      ParseLinesConcat([lines[0]], lines[1..]);
      ParseOneLine(lines[0]);
      assert [lines[0]] + lines[1..] == lines;
    }
  }

  /** `response.text.strip().split('\n')`, parsed. */
  function ParseReply(text: string): (r: seq<string>)
    ensures forall i :: 0 <= i < |r| ==> r[i] in KNOWN
  {
    ParseLines(Text.SplitOn(Text.Strip(text), '\n'))
  }

  /** The reference padding: the parsed subjects, then 'Unknown' up to n. */
  function Padded(subjects: seq<string>, n: nat): (r: seq<string>)
    ensures |r| == if |subjects| < n then n else |subjects|
    ensures r[..|subjects|] == subjects
    ensures forall i :: |subjects| <= i < |r| ==> r[i] == UNKNOWN
  {
    subjects + seq(if |subjects| < n then n - |subjects| else 0, _ => UNKNOWN)
  }

  /** The padding loop: append 'Unknown' while the list is too short. */
  method PadUnknown(subjects: seq<string>, n: nat) returns (r: seq<string>)
    ensures r == Padded(subjects, n)
  {
    r := subjects;
    while |r| < n
      invariant |subjects| <= |r| && (|subjects| < n ==> |r| <= n)
      invariant r[..|subjects|] == subjects
      invariant |subjects| >= n ==> r == subjects
      invariant forall i :: |subjects| <= i < |r| ==> r[i] == UNKNOWN
      decreases n - |r|
    {
      r := r + [UNKNOWN];
    }
    var p := Padded(subjects, n);
    assert |r| == |p|;
    forall i | 0 <= i < |r| ensures r[i] == p[i] {
      if i < |subjects| {
        assert r[i] == r[..|subjects|][i] && p[i] == p[..|subjects|][i];
      }
    }
  }

  /** `classify_mcq_batch(batch)` given the reply: the parsed subjects padded
      to the batch length, or all 'Unknown' when the call raised. */
  function ClassifyBatch(batch: seq<RawMcq>, reply: Option<string>): (r: seq<string>)
    ensures |r| >= |batch|
    ensures reply.None? ==> r == seq(|batch|, _ => UNKNOWN)
    ensures reply.Some? ==> r == Padded(ParseReply(reply.value), |batch|)
    ensures forall i :: 0 <= i < |r| ==> r[i] in KNOWN || r[i] == UNKNOWN
  {
    match reply
    case None => seq(|batch|, _ => UNKNOWN)
    case Some(text) => Padded(ParseReply(text), |batch|)
  }

  // ---------------------------------------------------------------------------
  // Batching

  /** The batches `range(0, len, size)` with slices `mcqs[i:i+size]`. */
  function Batches<T>(s: seq<T>, size: nat): (r: seq<seq<T>>)
    requires size > 0
    ensures forall k :: 0 <= k < |r| ==> 0 < |r[k]| <= size
    ensures forall k :: 0 <= k < |r| - 1 ==> |r[k]| == size
    ensures Flatten(r) == s
    decreases |s|
  {
    if s == [] then []
    else
      var m := if size < |s| then size else |s|;
      assert s[..m] + s[m..] == s;
      [s[..m]] + Batches(s[m..], size)
  }

  function Flatten<T>(bs: seq<seq<T>>): seq<T>
    decreases |bs|
  {
    if bs == [] then [] else bs[0] + Flatten(bs[1..])
  }

  /** A copy of the MCQ with its subject. */
  datatype Classified = Classified(mcq: RawMcq, subject: string)

  /** `zip(batch, subjects)`: as many pairs as the shorter list. */
  function Zip(batch: seq<RawMcq>, subjects: seq<string>): (r: seq<Classified>)
    ensures |r| == if |batch| < |subjects| then |batch| else |subjects|
    ensures forall i :: 0 <= i < |r| ==> r[i] == Classified(batch[i], subjects[i])
  {
    seq(if |batch| < |subjects| then |batch| else |subjects|, i requires 0 <= i < |batch| && i < |subjects| => Classified(batch[i], subjects[i]))
  }

  /** One batch classified and zipped with its subjects. */
  function BatchResult(batch: seq<RawMcq>, reply: seq<RawMcq> -> Option<string>): seq<Classified> {
    Zip(batch, ClassifyBatch(batch, reply(batch)))
  }

  /** The reference result: each batch zipped with its own classification. */
  function ZipBatches(bs: seq<seq<RawMcq>>, reply: seq<RawMcq> -> Option<string>): (r: seq<Classified>)
    ensures |r| == |Flatten(bs)|
    ensures forall j :: 0 <= j < |r| ==> r[j].mcq == Flatten(bs)[j]
    ensures forall j :: 0 <= j < |r| ==> r[j].subject in KNOWN || r[j].subject == UNKNOWN
    decreases |bs|
  {
    if bs == [] then []
    else
      var subjects := ClassifyBatch(bs[0], reply(bs[0]));
      var head := BatchResult(bs[0], reply);
      var rest := ZipBatches(bs[1..], reply);
      var f, g := Flatten(bs), Flatten(bs[1..]);
      assert f == bs[0] + g;
      assert |head| == |bs[0]|;
      var r := head + rest;
      forall j | 0 <= j < |r|
        ensures r[j].mcq == f[j]
        ensures r[j].subject in KNOWN || r[j].subject == UNKNOWN
      {
        if j < |head| {
          assert r[j] == Classified(bs[0][j], subjects[j]);
        } else {
          assert r[j] == rest[j - |head|] && f[j] == g[j - |head|];
        }
      }
      r
  }

  function Min(a: int, b: int): int {
    if a < b then a else b
  }

  /** The batches from position i: the next slice, then the batches after it. */
  lemma BatchStep(mcqs: seq<RawMcq>, i: nat, batchSize: nat, reply: seq<RawMcq> -> Option<string>)
    requires batchSize > 0 && i < |mcqs|
    ensures var batch := mcqs[i..Min(i + batchSize, |mcqs|)];
      ZipBatches(Batches(mcqs[i..], batchSize), reply)
      == BatchResult(batch, reply) + ZipBatches(Batches(mcqs[Min(i + batchSize, |mcqs|)..], batchSize), reply)
  {
    var rest := mcqs[i..];
    var m := Min(batchSize, |rest|);
    assert rest[..m] == mcqs[i..Min(i + batchSize, |mcqs|)];
    assert rest[m..] == mcqs[Min(i + batchSize, |mcqs|)..];
    var bs := Batches(rest, batchSize);
    assert bs == [rest[..m]] + Batches(rest[m..], batchSize);
    assert bs[0] == rest[..m] && bs[1..] == Batches(rest[m..], batchSize);
  }

  /** One pass of the batching loop keeps the processed prefix followed by
      the reference result of the rest equal to the whole. */
  lemma ClassifyStep(mcqs: seq<RawMcq>, i: nat, batchSize: nat, reply: seq<RawMcq> -> Option<string>,
                     out: seq<Classified>, whole: seq<Classified>)
    requires batchSize > 0 && i < |mcqs|
    requires out + ZipBatches(Batches(mcqs[i..], batchSize), reply) == whole
    ensures (out + BatchResult(mcqs[i..Min(i + batchSize, |mcqs|)], reply))
      + ZipBatches(Batches(mcqs[Min(i + batchSize, |mcqs|)..], batchSize), reply) == whole
  {
    BatchStep(mcqs, i, batchSize, reply);
    var batch := BatchResult(mcqs[i..Min(i + batchSize, |mcqs|)], reply);
    var later := ZipBatches(Batches(mcqs[Min(i + batchSize, |mcqs|)..], batchSize), reply);
    assert out + (batch + later) == whole;
    assert (out + batch) + later == out + (batch + later);
  }

  /** Once the loop has passed the end, nothing is left to classify. */
  lemma ClassifyDone(mcqs: seq<RawMcq>, i: nat, batchSize: nat, reply: seq<RawMcq> -> Option<string>,
                     out: seq<Classified>, whole: seq<Classified>)
    requires batchSize > 0 && i >= |mcqs|
    requires out + ZipBatches(Batches(mcqs[Min(i, |mcqs|)..], batchSize), reply) == whole
    ensures out == whole
  {
    var tail := mcqs[Min(i, |mcqs|)..];
    assert tail == [];
    assert Batches(tail, batchSize) == [];
    var none: seq<seq<RawMcq>> := [];
    assert ZipBatches(none, reply) == [];
    assert out + [] == out;
  }

  /** `classify_mcqs(mcqs, batch_size)`. */
  method ClassifyAll(mcqs: seq<RawMcq>, batchSize: nat, reply: seq<RawMcq> -> Option<string>) returns (out: seq<Classified>)
    requires batchSize > 0
    ensures out == ZipBatches(Batches(mcqs, batchSize), reply)
  {
    ghost var whole := ZipBatches(Batches(mcqs, batchSize), reply);
    out := [];
    var i := 0;
    assert mcqs[Min(i, |mcqs|)..] == mcqs;
    while i < |mcqs|
      invariant 0 <= i
      invariant out + ZipBatches(Batches(mcqs[Min(i, |mcqs|)..], batchSize), reply) == whole
      decreases |mcqs| - i
    {
      var next := Min(i + batchSize, |mcqs|);
      ClassifyStep(mcqs, i, batchSize, reply, out, whole);
      out := out + BatchResult(mcqs[i..next], reply);
      i := i + batchSize;
      assert Min(i, |mcqs|) == next;
    }
    ClassifyDone(mcqs, i, batchSize, reply, out, whole);
  }

  /** Every batch is the next slice of at most `batchSize` MCQs, and the
      output has one classified copy per input, in input order. */
  lemma ClassifyAllShape(mcqs: seq<RawMcq>, batchSize: nat, reply: seq<RawMcq> -> Option<string>)
    requires batchSize > 0
    ensures var bs := Batches(mcqs, batchSize);
      && Flatten(bs) == mcqs
      && (forall k :: 0 <= k < |bs| - 1 ==> |bs[k]| == batchSize)
      && |ZipBatches(bs, reply)| == |mcqs|
      && (forall j :: 0 <= j < |mcqs| ==> ZipBatches(bs, reply)[j].mcq == mcqs[j])
  {
  }
}
