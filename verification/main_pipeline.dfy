/** The extraction driver in main.py: argument parsing, the validation of
    the PDF and its page range, and the loop that feeds page chunks to
    extraction, classification and storage. Reading the PDF and the three
    pipeline stages are one oracle per chunk. */
module MainPipeline {
  import opened Wrappers
  import Text

  // ---------------------------------------------------------------------------
  // Paths and labels

  /** `os.path.basename(p)`: the text after the last '/'. */
  function Basename(p: string): (r: string)
    ensures '/' !in r && Text.EndsWith(p, r)
    ensures '/' in p ==> |r| < |p| && p[|p| - |r| - 1] == '/'
    ensures '/' !in p ==> r == p
  {
    match Text.RFind(p, '/')
    case None => p
    case Some(i) => p[i + 1..]
  }

  /** `os.path.join("pdf_files", name)` for a relative name. */
  function PdfPath(name: string): string {
    "pdf_files/" + name
  }

  /** The base name of a joined path is the name the user gave. */
  lemma BasenameOfPdfPath(name: string)
    requires '/' !in name
    ensures Basename(PdfPath(name)) == name
  {
    assert PdfPath(name) == "pdf_files" + ['/'] + name;
    Text.RFindBefore("pdf_files", '/', name);
  }

  /** The `source_file` recorded with each stored question. */
  function SourceLabel(path: string, cur: int, chunkEnd: int): string {
    (Basename(path) + ":p") + Text.IntToString(cur + 1) + ("-" + Text.IntToString(chunkEnd))
  }

  lemma ConcatEnds(h: string, m: string, t: string)
    ensures Text.StartsWith(h + m + t, h) && Text.EndsWith(h + m + t, t)
  {
    var r := h + m + t;
    assert r[..|h|] == h;
    assert r[|r| - |t|..] == t;
  }

  /** A label starts with the base name and ":p", and ends with '-' and
      the chunk end. */
  lemma SourceLabelShape(path: string, cur: int, chunkEnd: int)
    ensures Text.StartsWith(SourceLabel(path, cur, chunkEnd), Basename(path) + ":p")
    ensures Text.EndsWith(SourceLabel(path, cur, chunkEnd), "-" + Text.IntToString(chunkEnd))
  {
    ConcatEnds(Basename(path) + ":p", Text.IntToString(cur + 1), "-" + Text.IntToString(chunkEnd));
  }

  /** After the head, two '-'-free parts joined by '-' split back apart. */
  lemma LabelTail(h: string, a: string, b: string)
    requires '-' !in a && '-' !in b
    ensures Text.SplitOn((h + a + ("-" + b))[|h|..], '-') == [a, b]
  {
    assert (h + a + ("-" + b))[|h|..] == Text.JoinWith([a, b], '-');
    Text.JoinSplitRoundTrip([a, b], '-');
  }

  /** The page range can be read back from a label: after the base name
      and ":p" come the first page (one-based) and the chunk end, split
      by '-'. */
  lemma SourceLabelPages(path: string, cur: nat, chunkEnd: nat)
    ensures var head := Basename(path) + ":p";
      var rest := SourceLabel(path, cur, chunkEnd)[|head|..];
      var parts := Text.SplitOn(rest, '-');
      |parts| == 2
      && (forall i :: 0 <= i < |parts[0]| ==> Text.IsDigit(parts[0][i]))
      && (forall i :: 0 <= i < |parts[1]| ==> Text.IsDigit(parts[1][i]))
      && Text.DigitsValue(parts[0]) == cur + 1
      && Text.DigitsValue(parts[1]) == chunkEnd
  {
    var a, b := Text.NatToString(cur + 1), Text.NatToString(chunkEnd);
    assert '-' !in a && '-' !in b;
    LabelTail(Basename(path) + ":p", a, b);
    Text.NatToStringRoundTrip(cur + 1);
    Text.NatToStringRoundTrip(chunkEnd);
  }

  // ---------------------------------------------------------------------------
  // The chunk loop

  function Min(a: int, b: int): int {
    if a <= b then a else b
  }

  /** The half-open zero-based page ranges the loop visits from `lo`. */
  function Chunks(lo: int, end: int, size: int): (r: seq<(int, int)>)
    requires size > 0
    ensures r == [] <==> lo >= end
    ensures r != [] ==> r[0].0 == lo && r[|r| - 1].1 == end
    decreases end - lo
  {
    if lo >= end then [] else [(lo, Min(lo + size, end))] + Chunks(lo + size, end, size)
  }

  /** Every chunk is non-empty and at most `size` pages wide. */
  lemma {:induction false} ChunkWidths(lo: int, end: int, size: int)
    requires size > 0
    ensures forall i :: 0 <= i < |Chunks(lo, end, size)| ==>
      Chunks(lo, end, size)[i].0 < Chunks(lo, end, size)[i].1 <= Chunks(lo, end, size)[i].0 + size
    decreases end - lo
  {
    if lo < end {
      var r := Chunks(lo, end, size);
      var rest := Chunks(lo + size, end, size);
      ChunkWidths(lo + size, end, size);
      forall i | 0 <= i < |r| ensures r[i].0 < r[i].1 <= r[i].0 + size {
        if i > 0 {
          assert r[i] == rest[i - 1];
        }
      }
    }
  }

  /** Consecutive chunks touch, and every chunk but the last is a full
      `size` pages: the loop moves on by `size` each time. */
  lemma {:induction false} ChunksConsecutive(lo: int, end: int, size: int, i: nat)
    requires size > 0 && i + 1 < |Chunks(lo, end, size)|
    ensures Chunks(lo, end, size)[i].1 == Chunks(lo, end, size)[i].0 + size == Chunks(lo, end, size)[i + 1].0
    decreases end - lo
  {
    var r := Chunks(lo, end, size);
    var rest := Chunks(lo + size, end, size);
    assert r[1..] == rest;
    if i > 0 {
      ChunksConsecutive(lo + size, end, size, i - 1);
      assert r[i] == rest[i - 1] && r[i + 1] == rest[i];
    } else {
      assert rest != [];
    }
  }

  /** The first chunk from `lo`, and the chunks after it. */
  lemma ChunksUnfold(lo: int, end: int, size: int)
    requires size > 0 && lo < end
    ensures Chunks(lo, end, size) == [(lo, Min(lo + size, end))] + Chunks(lo + size, end, size)
  {
  }

  /** The chunks cover the range: a page lies in [lo, end) exactly when it
      lies in some chunk. */
  lemma {:induction false} ChunksCover(lo: int, end: int, size: int, p: int)
    requires size > 0
    ensures lo <= p < end <==> exists i :: 0 <= i < |Chunks(lo, end, size)| && Chunks(lo, end, size)[i].0 <= p < Chunks(lo, end, size)[i].1
    decreases end - lo
  {
    if lo < end {
      var r := Chunks(lo, end, size);
      var rest := Chunks(lo + size, end, size);
      ChunksUnfold(lo, end, size);
      ChunksCover(lo + size, end, size, p);
      if lo <= p < end && p >= r[0].1 {
        var i :| 0 <= i < |rest| && rest[i].0 <= p < rest[i].1;
        assert r[i + 1] == rest[i];
      }
      if exists i :: 0 <= i < |r| && r[i].0 <= p < r[i].1 {
        var i :| 0 <= i < |r| && r[i].0 <= p < r[i].1;
        if i > 0 {
          assert rest[i - 1] == r[i];
        }
      }
    }
  }

  /** The chunks are disjoint: an earlier chunk ends before a later one
      starts. */
  lemma {:induction false} ChunksDisjoint(lo: int, end: int, size: int)
    requires size > 0
    ensures forall i, j :: 0 <= i < j < |Chunks(lo, end, size)| ==> Chunks(lo, end, size)[i].1 <= Chunks(lo, end, size)[j].0
    decreases end - lo
  {
    if lo < end {
      var r := Chunks(lo, end, size);
      var rest := Chunks(lo + size, end, size);
      ChunksUnfold(lo, end, size);
      ChunksDisjoint(lo + size, end, size);
      forall i, j | 0 <= i < j < |r| ensures r[i].1 <= r[j].0 {
        assert r[j] == rest[j - 1];
        if i > 0 {
          assert r[i] == rest[i - 1];
        } else {
          assert r[0].1 <= lo + size == rest[0].0;
          assert j - 1 == 0 || rest[0].1 <= rest[j - 1].0;
        }
      }
    }
  }

  /** What one chunk's extraction, classification and storage came to. */
  datatype ChunkOutcome =
    | Saved(successful: nat, failed: nat)  // the counts from `batch_insert_mcqs`
    | NoMcqs                               // the extraction found nothing
    | Raised                               // one of the stages raised

  function Counts(o: ChunkOutcome): (nat, nat) {
    match o
    case Saved(s, f) => (s, f)
    case _ => (0, 0)
  }

  /** The chunk stage as the loop calls it: the chunk [lo, hi), run with
      its own source label. */
  function Labelled(path: string, run: (int, int, string) -> ChunkOutcome): (int, int) -> ChunkOutcome {
    (lo: int, hi: int) => run(lo, hi, SourceLabel(path, lo, hi))
  }

  /** The reference totals over a list of chunks: the sums of the saved
      and of the failed counts. */
  function SavedTotal(chunks: seq<(int, int)>, stage: (int, int) -> ChunkOutcome): nat
    decreases |chunks|
  {
    if chunks == [] then 0 else Counts(stage(chunks[0].0, chunks[0].1)).0 + SavedTotal(chunks[1..], stage)
  }

  function FailedTotal(chunks: seq<(int, int)>, stage: (int, int) -> ChunkOutcome): nat
    decreases |chunks|
  {
    if chunks == [] then 0 else Counts(stage(chunks[0].0, chunks[0].1)).1 + FailedTotal(chunks[1..], stage)
  }

  /** A run in which every chunk fails or finds nothing saves nothing. */
  lemma {:induction false} TotalsWithoutSaves(chunks: seq<(int, int)>, stage: (int, int) -> ChunkOutcome)
    requires forall i :: 0 <= i < |chunks| ==> !stage(chunks[i].0, chunks[i].1).Saved?
    ensures SavedTotal(chunks, stage) == 0 && FailedTotal(chunks, stage) == 0
    decreases |chunks|
  {
    if chunks != [] {
      var rest := chunks[1..];
      assert forall i :: 0 <= i < |rest| ==> rest[i] == chunks[i + 1];
      TotalsWithoutSaves(rest, stage);
    }
  }

  /** One pass of the extraction loop: the counts so far plus the first
      chunk's counts plus the totals of the chunks after it are the totals. */
  lemma ExtractStep(cur: int, end: int, size: int, stage: (int, int) -> ChunkOutcome,
                    all: seq<(int, int)>, successful: nat, failed: nat)
    requires size > 0 && cur < end
    requires SavedTotal(all, stage) == successful + SavedTotal(Chunks(cur, end, size), stage)
    requires FailedTotal(all, stage) == failed + FailedTotal(Chunks(cur, end, size), stage)
    ensures var c := Counts(stage(cur, Min(cur + size, end)));
      && SavedTotal(all, stage) == successful + c.0 + SavedTotal(Chunks(cur + size, end, size), stage)
      && FailedTotal(all, stage) == failed + c.1 + FailedTotal(Chunks(cur + size, end, size), stage)
  {
    var here := Chunks(cur, end, size);
    ChunksUnfold(cur, end, size);
    assert here[1..] == Chunks(cur + size, end, size);
  }

  /** `extract_mcqs_from_pdf_range`. The loop advances by `chunkSize` on
      every path, so it ends when the size is positive; with any other
      size and a non-empty range it never ends. */
  method ExtractRange(path: string, startPage: int, endPage: int, chunkSize: int, run: (int, int, string) -> ChunkOutcome)
    returns (successful: nat, failed: nat)
    requires chunkSize > 0
    ensures successful == SavedTotal(Chunks(startPage - 1, endPage, chunkSize), Labelled(path, run))
    ensures failed == FailedTotal(Chunks(startPage - 1, endPage, chunkSize), Labelled(path, run))
  {
    successful, failed := RunChunks(startPage - 1, endPage, chunkSize, Labelled(path, run));
  }

  /** The loop itself, from the zero-based page `lo`, over any chunk stage. */
  method RunChunks(lo: int, endPage: int, chunkSize: int, stage: (int, int) -> ChunkOutcome)
    returns (successful: nat, failed: nat)
    requires chunkSize > 0
    ensures successful == SavedTotal(Chunks(lo, endPage, chunkSize), stage)
    ensures failed == FailedTotal(Chunks(lo, endPage, chunkSize), stage)
  {
    successful, failed := 0, 0;
    var cur := lo;
    ghost var all := Chunks(lo, endPage, chunkSize);
    while cur < endPage
      invariant SavedTotal(all, stage) == successful + SavedTotal(Chunks(cur, endPage, chunkSize), stage)
      invariant FailedTotal(all, stage) == failed + FailedTotal(Chunks(cur, endPage, chunkSize), stage)
      decreases endPage - cur
    {
      var chunkEnd := Min(cur + chunkSize, endPage);
      var outcome := stage(cur, chunkEnd);
      ExtractStep(cur, endPage, chunkSize, stage, all, successful, failed);
      if outcome.Saved? {
        successful := successful + outcome.successful;
        failed := failed + outcome.failed;
      }
      cur := cur + chunkSize;
    }
  }

  // ---------------------------------------------------------------------------
  // Validation

  /** What `validate_pdf_and_pages` returns: False, True, or the page
      count when the end page lies beyond it. */
  datatype Validation = Rejected | Accepted | Adjusted(total: nat)

  /** Python truthiness of the returned value, as `main` tests it. */
  predicate Proceeds(v: Validation) {
    match v
    case Rejected => false
    case Accepted => true
    case Adjusted(n) => n != 0
  }

  /** `validate_pdf_and_pages`; `pageCount` is None when opening the PDF
      raised. */
  function ValidatePdfAndPages(exists_: bool, pageCount: Option<nat>, startPage: int, endPage: int): (r: Validation)
    ensures !exists_ ==> r == Rejected
    ensures exists_ && pageCount.None? ==> r == Accepted
    ensures r.Adjusted? ==> exists_ && pageCount == Some(r.total) && startPage <= r.total < endPage
    ensures r == Accepted && pageCount.Some? ==> startPage < endPage <= pageCount.value
    ensures exists_ && pageCount.Some? && startPage <= endPage <= pageCount.value && startPage != endPage ==> r == Accepted
  {
    if !exists_ then Rejected
    else match pageCount
      case None => Accepted
      case Some(total) =>
        if startPage > total then Rejected
        else if endPage > total then Adjusted(total)
        else if startPage >= endPage then Rejected
        else Accepted
  }

  /** The end-page check comes before the order check: a reversed range
      whose end lies past the PDF is not rejected. */
  lemma ValidationOrder(total: nat, startPage: int, endPage: int)
    requires startPage <= total < endPage
    ensures ValidatePdfAndPages(true, Some(total), startPage, endPage) == Adjusted(total)
    ensures total == 0 ==> !Proceeds(ValidatePdfAndPages(true, Some(total), startPage, endPage))
  {
  }

  /** Validation rejects a range exactly when the PDF is missing, the start
      lies past the end of the PDF, or the range is empty inside it. */
  lemma ValidationRejects(exists_: bool, pageCount: Option<nat>, startPage: int, endPage: int)
    ensures ValidatePdfAndPages(exists_, pageCount, startPage, endPage) == Rejected <==>
      !exists_ || (pageCount.Some? && (startPage > pageCount.value || (endPage <= pageCount.value && startPage >= endPage)))
  {
  }

  // ---------------------------------------------------------------------------
  // Arguments

  datatype Arguments = Arguments(pdfName: string, startPage: int, endPage: int, chunkSize: int)

  /** The outcome of `parse_arguments`: the help text, a numeric argument
      `int()` refused, or the four values. */
  datatype Parsed = Help | BadNumber | Parsed(args: Arguments)

  const DEFAULTS := Arguments("March 2025.pdf", 438, 452, 20)

  predicate AllDigits(s: string) {
    |s| > 0 && forall i :: 0 <= i < |s| ==> Text.IsDigit(s[i])
  }

  /** A digit run, optionally after one sign. */
  predicate Numeral(t: string) {
    AllDigits(t) || (|t| > 1 && (t[0] == '-' || t[0] == '+') && AllDigits(t[1..]))
  }

  /** `int(s)` for a decimal numeral with an optional sign and surrounding
      whitespace. */
  function ParseInt(s: string): (r: Option<int>)
    ensures r.Some? <==> Numeral(Text.Strip(s))
    ensures r.Some? && AllDigits(Text.Strip(s)) ==> r.value == Text.DigitsValue(Text.Strip(s))
    ensures r.Some? && !AllDigits(Text.Strip(s)) ==>
      && Text.Strip(s)[0] in "+-" && AllDigits(Text.Strip(s)[1..])
      && r.value == (if Text.Strip(s)[0] == '-' then -1 else 1) * Text.DigitsValue(Text.Strip(s)[1..])
  {
    var t := Text.Strip(s);
    if |t| > 0 && (t[0] == '-' || t[0] == '+') then
      if AllDigits(t[1..]) then
        var v: int := Text.DigitsValue(t[1..]);
        Some(if t[0] == '-' then -v else v)
      else None
    else if AllDigits(t) then Some(Text.DigitsValue(t))
    else None
  }

  /** A digit run parses to its value. */
  lemma ParseDigits(d: string)
    requires AllDigits(d)
    ensures ParseInt(d) == Some(Text.DigitsValue(d) as int)
  {
    assert !Text.IsSpace(d[0]) && !Text.IsSpace(d[|d| - 1]);
    Text.StripNoOp(d);
  }

  /** A digit run after a '-' parses to the negated value. */
  lemma ParseNegDigits(d: string)
    requires AllDigits(d)
    ensures ParseInt("-" + d) == Some(-(Text.DigitsValue(d) as int))
  {
    var m := "-" + d;
    assert m[1..] == d;
    assert Text.Strip(m) == m by {
      assert m[0] == '-' && m[|m| - 1] == d[|d| - 1] && !Text.IsSpace(d[|d| - 1]);
      Text.StripNoOp(m);
    }
    assert AllDigits(m[1..]);
  }

  /** Rendering an integer and parsing it back gives the integer. */
  lemma ParseIntRoundTrip(n: int)
    ensures ParseInt(Text.IntToString(n)) == Some(n)
  {
    var a: nat := if n < 0 then -n else n;
    Text.NatToStringRoundTrip(a);
    if n < 0 {
      ParseNegDigits(Text.NatToString(a));
    } else {
      ParseDigits(Text.NatToString(a));
    }
  }

  /** One optional numeric argument: absent keeps the default. */
  function NumberArg(argv: seq<string>, k: nat, default: int): Option<int> {
    if |argv| > k then ParseInt(argv[k]) else Some(default)
  }

  /** The first argument is one of the help flags. */
  predicate AsksHelp(argv: seq<string>) {
    |argv| > 1 && argv[1] in ["-h", "--help", "help"]
  }

  /** `parse_arguments(argv)`, `argv[0]` being the program name. */
  function ParseArguments(argv: seq<string>): (r: Parsed)
    ensures r == Help <==> AsksHelp(argv)
    ensures r == BadNumber <==> !AsksHelp(argv) && exists k :: 2 <= k <= 4 && k < |argv| && ParseInt(argv[k]).None?
    ensures |argv| <= 1 ==> r == Parsed(DEFAULTS)
    ensures r.Parsed? && |argv| > 1 ==> r.args.pdfName == argv[1]
    ensures r.Parsed? && |argv| > 2 ==> ParseInt(argv[2]) == Some(r.args.startPage)
    ensures r.Parsed? && |argv| > 3 ==> ParseInt(argv[3]) == Some(r.args.endPage)
    ensures r.Parsed? && |argv| > 4 ==> ParseInt(argv[4]) == Some(r.args.chunkSize)
    ensures r.Parsed? && |argv| <= 4 ==> r.args.chunkSize == 20
    ensures r.Parsed? && |argv| <= 3 ==> r.args.endPage == 452
    ensures r.Parsed? && |argv| <= 2 ==> r.args.startPage == 438
  {
    if AsksHelp(argv) then Help
    else
      var name := if |argv| > 1 then argv[1] else DEFAULTS.pdfName;
      match (NumberArg(argv, 2, 438), NumberArg(argv, 3, 452), NumberArg(argv, 4, 20))
      case (Some(s), Some(e), Some(c)) => Parsed(Arguments(name, s, e, c))
      case _ => BadNumber
  }

  /** Passing every value explicitly, as its decimal text, gives exactly
      those values; further arguments are ignored. */
  lemma ParseArgumentsRoundTrip(prog: string, a: Arguments, extra: seq<string>)
    requires a.pdfName !in ["-h", "--help", "help"]
    ensures ParseArguments([prog, a.pdfName, Text.IntToString(a.startPage), Text.IntToString(a.endPage), Text.IntToString(a.chunkSize)] + extra) == Parsed(a)
  {
    var argv := [prog, a.pdfName, Text.IntToString(a.startPage), Text.IntToString(a.endPage), Text.IntToString(a.chunkSize)] + extra;
    assert argv[1] == a.pdfName && argv[2] == Text.IntToString(a.startPage);
    assert argv[3] == Text.IntToString(a.endPage) && argv[4] == Text.IntToString(a.chunkSize);
    ParseIntRoundTrip(a.startPage);
    ParseIntRoundTrip(a.endPage);
    ParseIntRoundTrip(a.chunkSize);
    assert NumberArg(argv, 2, 438) == Some(a.startPage);
    assert NumberArg(argv, 3, 452) == Some(a.endPage);
    assert NumberArg(argv, 4, 20) == Some(a.chunkSize);
  }

  /** A help flag wins over any later argument, even malformed numbers. */
  lemma HelpFirst(prog: string, flag: string, rest: seq<string>)
    requires flag in ["-h", "--help", "help"]
    ensures ParseArguments([prog, flag] + rest) == Help
  {
  }

  /** Any non-positive chunk size is accepted: `parse_arguments` only
      converts it with `int()`. */
  lemma NonPositiveChunkAccepted(prog: string, a: Arguments)
    requires a.pdfName !in ["-h", "--help", "help"] && a.chunkSize <= 0
    ensures ParseArguments([prog, a.pdfName, Text.IntToString(a.startPage), Text.IntToString(a.endPage), Text.IntToString(a.chunkSize)]) == Parsed(a)
  {
    ParseArgumentsRoundTrip(prog, a, []);
    assert [prog, a.pdfName, Text.IntToString(a.startPage), Text.IntToString(a.endPage), Text.IntToString(a.chunkSize)] + []
      == [prog, a.pdfName, Text.IntToString(a.startPage), Text.IntToString(a.endPage), Text.IntToString(a.chunkSize)];
  }

  /** `parse_arguments` with the chunk size checked: a size below 1 is
      refused like a malformed number, and everything else is as before. */
  function ParseArgumentsChecked(argv: seq<string>): (r: Parsed)
    ensures r.Parsed? ==> r.args.chunkSize > 0
    ensures r.Parsed? <==> ParseArguments(argv).Parsed? && ParseArguments(argv).args.chunkSize > 0
    ensures r.Parsed? ==> r == ParseArguments(argv)
    ensures r == Help <==> AsksHelp(argv)
  {
    match ParseArguments(argv)
    case Parsed(a) => if a.chunkSize > 0 then Parsed(a) else BadNumber
    case other => other
  }

  /** Where the loop's page cursor is after k passes. Every path through the
      body (an empty chunk, a saved one, a raising one) moves it on by the
      chunk size. */
  function CursorAfter(cur: int, size: int, k: nat): int
    decreases k
  {
    if k == 0 then cur else CursorAfter(cur + size, size, k - 1)
  }

  /** With a non-positive chunk size and a non-empty range, the cursor never
      reaches the end page, so the loop never stops. */
  lemma {:induction false} NonPositiveChunkNeverEnds(cur: int, end: int, size: int, k: nat)
    requires size <= 0 && cur < end
    ensures CursorAfter(cur, size, k) <= cur < end
    decreases k
  {
    if k > 0 {
      NonPositiveChunkNeverEnds(cur + size, end, size, k - 1);
    }
  }

  /** With a positive chunk size the loop stops after exactly one pass per
      chunk: the cursor is below the end page before each of them and
      reaches it after the last. */
  lemma {:induction false} PositiveChunkEnds(cur: int, end: int, size: int, k: nat)
    requires size > 0
    ensures k < |Chunks(cur, end, size)| ==> CursorAfter(cur, size, k) < end
    ensures CursorAfter(cur, size, |Chunks(cur, end, size)|) >= end
    decreases end - cur
  {
    if cur < end {
      ChunksUnfold(cur, end, size);
      if k > 0 {
        PositiveChunkEnds(cur + size, end, size, k - 1);
      } else {
        PositiveChunkEnds(cur + size, end, size, 0);
      }
    }
  }

  // ---------------------------------------------------------------------------
  // The driver

  /** The page range `main` hands to the chunk loop, or None when it stops
      before extracting. `main` tests only the truthiness of validation:
      an adjusted page count is not used, and the loop runs to the end page
      as given. */
  function PlannedRange(args: Arguments, exists_: bool, pageCount: Option<nat>): (r: Option<(int, int, int)>)
    ensures r.Some? <==> Proceeds(ValidatePdfAndPages(exists_, pageCount, args.startPage, args.endPage))
    ensures r.Some? ==> r.value == (args.startPage - 1, args.endPage, args.chunkSize)
  {
    if Proceeds(ValidatePdfAndPages(exists_, pageCount, args.startPage, args.endPage)) then
      Some((args.startPage - 1, args.endPage, args.chunkSize))
    else None
  }

  /** With the default arguments and a PDF of at least 452 pages, the
      driver extracts pages 438 to 452 as a single chunk. */
  lemma DefaultRun(total: nat)
    requires total >= 452
    ensures PlannedRange(DEFAULTS, true, Some(total)) == Some((437, 452, 20))
    ensures Chunks(437, 452, 20) == [(437, 452)]
  {
    assert Chunks(457, 452, 20) == [];
  }

  /** An end page past the PDF is reported as adjusted, yet the loop still
      runs to the original end page. */
  lemma AdjustmentUnused(args: Arguments, total: nat)
    requires 0 < total && args.startPage <= total < args.endPage
    ensures ValidatePdfAndPages(true, Some(total), args.startPage, args.endPage) == Adjusted(total)
    ensures PlannedRange(args, true, Some(total)) == Some((args.startPage - 1, args.endPage, args.chunkSize))
  {
  }
}
