/** The decision logic of the Flask routes in app.py: the month-table
    naming, the exam route's branches, and the mock-test assembly. Database
    queries are parameters; the request plumbing is left out. */
module App {
  import opened Wrappers
  import Text
  import opened Mcq
  import opened Dict
  import DbHandler

  /** A JSON list with status 200, or an error object with its status. */
  datatype Response<T> = Ok(items: seq<T>) | Fail(status: nat, message: string)

  // ---------------------------------------------------------------------------
  // Month tables

  /** The last digit of a rendering is the last decimal digit. */
  lemma {:induction false} NatToStringLast(n: nat)
    ensures var s := Text.NatToString(n); s[|s| - 1] == Text.DigitChar(n % 10)
  {
  }

  lemma DigitRoundTrip(d: nat)
    requires d < 10
    ensures Text.IsDigit(Text.DigitChar(d)) && Text.DigitValue(Text.DigitChar(d)) == d
  {
  }

  /** `str(year)[-2:]`: the last two characters (one for a one-digit year). */
  function YearSuffix(year: nat): (r: string)
    ensures |r| == if year < 10 then 1 else 2
    ensures forall i :: 0 <= i < |r| ==> Text.IsDigit(r[i])
    ensures Text.DigitsValue(r) == year % 100
  {
    var s := Text.NatToString(year);
    if |s| < 2 then
      DigitRoundTrip(year);
      assert s == [Text.DigitChar(year)];
      assert Text.DigitsValue(s) == Text.DigitsValue(s[..0]) * 10 + year;
      s
    else
      var hi, lo := year / 10 % 10, year % 10;
      var r := s[|s| - 2..];
      NatToStringLast(year / 10);
      DigitRoundTrip(hi);
      DigitRoundTrip(lo);
      assert s == Text.NatToString(year / 10) + [Text.DigitChar(lo)];
      assert r == [Text.DigitChar(hi), Text.DigitChar(lo)];
      assert r[..1] == [Text.DigitChar(hi)] && r[..1][..0] == [];
      assert Text.DigitsValue(r[..1]) == hi;
      assert Text.DigitsValue(r) == hi * 10 + lo;
      assert year % 100 == hi * 10 + lo;
      r
  }

  /** `get_month_table_name(year, month)`. */
  function MonthTableName(year: nat, month: string): (r: string)
    ensures Text.StartsWith(r, Text.Lower(month)) && Text.EndsWith(r, "_mcqs")
    ensures |r| == |month| + |YearSuffix(year)| + 5
  {
    var r := Text.Lower(month) + YearSuffix(year) + "_mcqs";
    assert r[..|month|] == Text.Lower(month);
    assert r[|r| - 5..] == "_mcqs";
    r
  }

  const MONTHS: seq<string> := ["january", "february", "march", "april", "may", "june",
    "july", "august", "september", "october", "november", "december"]

  const MONTH_TABLES_2025: Dict<string> := [
    ("january", "january25_mcqs"), ("february", "february25_mcqs"), ("march", "march25_mcqs"),
    ("april", "april25_mcqs"), ("may", "may25_mcqs"), ("june", "june25_mcqs"),
    ("july", "july25_mcqs"), ("august", "august25_mcqs"), ("september", "september25_mcqs"),
    ("october", "october25_mcqs"), ("november", "november25_mcqs"), ("december", "december25_mcqs")]

  /** A name already in lower case names the table `<name>25_mcqs`. */
  lemma TableName2025(m: string)
    requires forall i :: 0 <= i < |m| ==> Text.IsLower(m[i])
    ensures MonthTableName(2025, m) == m + "25_mcqs"
  {
    assert Text.Lower(m) == m;
    assert Text.NatToString(2025) == Text.NatToString(202) + ['5'];
    assert YearSuffix(2025) == "25";
  }

  lemma MonthsLower(i: nat)
    requires i < 12
    ensures forall j :: 0 <= j < |MONTHS[i]| ==> Text.IsLower(MONTHS[i][j])
  {
  }

  lemma MonthEntry(i: nat)
    requires i < 12
    ensures MONTH_TABLES_2025[i] == (MONTHS[i], MONTHS[i] + "25_mcqs")
  {
    if i == 0 {
      assert "january" + "25_mcqs" == "january25_mcqs";
    } else if i == 1 {
      assert "february" + "25_mcqs" == "february25_mcqs";
    } else if i == 2 {
      assert "march" + "25_mcqs" == "march25_mcqs";
    } else if i == 3 {
      assert "april" + "25_mcqs" == "april25_mcqs";
    } else if i == 4 {
      assert "may" + "25_mcqs" == "may25_mcqs";
    } else if i == 5 {
      assert "june" + "25_mcqs" == "june25_mcqs";
    } else if i == 6 {
      assert "july" + "25_mcqs" == "july25_mcqs";
    } else if i == 7 {
      assert "august" + "25_mcqs" == "august25_mcqs";
    } else if i == 8 {
      assert "september" + "25_mcqs" == "september25_mcqs";
    } else if i == 9 {
      assert "october" + "25_mcqs" == "october25_mcqs";
    } else if i == 10 {
      assert "november" + "25_mcqs" == "november25_mcqs";
    } else {
      assert "december" + "25_mcqs" == "december25_mcqs";
    }
  }

  /** The twelve month names differ from one another. */
  lemma MonthsDistinct()
    ensures forall i, j :: 0 <= i < j < 12 ==> MONTHS[i] != MONTHS[j]
  {
    // Distinct first letters, except for the j-months, the m-months and the a-months.
    forall i, j | 0 <= i < j < 12 ensures MONTHS[i] != MONTHS[j] {
      assert |MONTHS[i]| > 2 && |MONTHS[j]| > 2;
      if MONTHS[i][0] == MONTHS[j][0] && MONTHS[i][1] == MONTHS[j][1] && MONTHS[i][2] == MONTHS[j][2] {
        assert false;
      }
    }
  }

  /** The table of 2025 agrees with the naming rule: each month is listed,
      in order, under its own name, and maps to `<month>25_mcqs`. */
  lemma MonthTablesAgree()
    ensures |MONTH_TABLES_2025| == 12
    ensures forall i :: 0 <= i < 12 ==> MONTH_TABLES_2025[i].0 == MONTHS[i]
    ensures forall i :: 0 <= i < 12 ==> MONTH_TABLES_2025[i].1 == MonthTableName(2025, MONTHS[i])
    ensures DistinctKeys(MONTH_TABLES_2025)
  {
    forall i | 0 <= i < 12
      ensures MONTH_TABLES_2025[i].0 == MONTHS[i]
      ensures MONTH_TABLES_2025[i].1 == MonthTableName(2025, MONTHS[i])
    {
      MonthEntry(i);
      MonthsLower(i);
      TableName2025(MONTHS[i]);
    }
    MonthsDistinct();
  }

  /** Looking a month up in the 2025 table: case-insensitive, and the
      result is the generated name exactly for the twelve months. */
  lemma MonthLookup(month: string)
    ensures Get(MONTH_TABLES_2025, Text.Lower(month)).Some? <==> Text.Lower(month) in MONTHS
    ensures Text.Lower(month) in MONTHS ==> Get(MONTH_TABLES_2025, Text.Lower(month)) == Some(MonthTableName(2025, month))
  {
    MonthTablesAgree();
    var m := Text.Lower(month);
    if m in MONTHS {
      var i :| 0 <= i < 12 && MONTHS[i] == m;
      DistinctGet(MONTH_TABLES_2025, i);
      Text.LowerIdempotent(month);
    }
    if HasKey(MONTH_TABLES_2025, m) {
      var i :| 0 <= i < |MONTH_TABLES_2025| && MONTH_TABLES_2025[i].0 == m;
      assert MONTHS[i] == m;
    }
  }

  // ---------------------------------------------------------------------------
  // The exam route

  /** What `get_mcqs_by_exam_table(table)` gave: its list, or the text of
      the exception it raised. */
  datatype TableFetch<T> = TableRows(rows: seq<T>) | TableRaised(error: string)

  function UpdatedSoon(year: nat): string {
    "This Month's MCQs for " + Text.NatToString(year) + " will be updated soon"
  }

  function NotConfigured(month: string, year: nat): string {
    "No MCQ table configured for " + month + " " + Text.NatToString(year) + "."
  }

  function DataSoon(month: string, year: nat): string {
    "Data for " + month + " " + Text.NatToString(year) + " will be updated soon"
  }

  /** The branch for 2025: look the table up, then fetch it. A known month
      passes the generated name (which equals the looked-up one). */
  function Exam2025<T>(month: string, fetch: string -> TableFetch<T>): (r: Response<T>)
    ensures Text.Lower(month) !in MONTHS ==> r == Fail(404, NotConfigured(month, 2025))
    ensures Text.Lower(month) in MONTHS ==>
      match fetch(MonthTableName(2025, month))
      case TableRaised(e) => r == Fail(500, "Server error: " + e)
      case TableRows(rows) => r == if rows == [] then Fail(404, UpdatedSoon(2025)) else Ok(rows)
  {
    MonthLookup(month);
    match Get(MONTH_TABLES_2025, Text.Lower(month))
    case None => Fail(404, NotConfigured(month, 2025))
    case Some(_) =>
      match fetch(MonthTableName(2025, month))
      case TableRaised(e) => Fail(500, "Server error: " + e)
      case TableRows(rows) => if rows == [] then Fail(404, UpdatedSoon(2025)) else Ok(rows)
  }

  /** `get_exam_mcqs(year, month)` as written: for any year but 2025 the
      test `not table_name` reads a variable that was never assigned, and
      the resulting exception is reported as a server error. `unbound` is
      the text of that exception. */
  function GetExamMcqsAsWritten<T>(year: nat, month: string, fetch: string -> TableFetch<T>, unbound: string): (r: Response<T>)
    ensures year == 2025 ==> r == Exam2025(month, fetch)
    ensures year != 2025 ==> r == Fail(500, "Server error: " + unbound)
  {
    if year == 2025 then Exam2025(month, fetch)
    else Fail(500, "Server error: " + unbound)
  }

  /** No request for another year reaches the "updated soon" answers: the
      2023/2024 branch and the generic branch are dead. */
  lemma OtherYearsFailAsWritten<T>(year: nat, month: string, fetch: string -> TableFetch<T>, unbound: string)
    requires year != 2025
    ensures GetExamMcqsAsWritten(year, month, fetch, unbound).Fail?
    ensures GetExamMcqsAsWritten(year, month, fetch, unbound).status == 500
    ensures GetExamMcqsAsWritten(year, month, fetch, unbound) != Fail(404, DataSoon(month, year))
  {
    assert Text.StartsWith("Server error: " + unbound, "Server error: ");
  }

  /** The route with the lookup check inside the 2025 branch, as the
      2023/2024 message and the generic-year comment intend. */
  function GetExamMcqs<T>(year: nat, month: string, fetch: string -> TableFetch<T>): (r: Response<T>)
    ensures year == 2025 ==> r == Exam2025(month, fetch)
    ensures year != 2025 ==> r == Fail(404, DataSoon(month, year))
  {
    if year == 2025 then Exam2025(month, fetch)
    else Fail(404, DataSoon(month, year))
  }

  /** The corrected route answers 404 "will be updated soon" for every
      other year, and agrees with the route as written on 2025. */
  lemma CorrectedExamRoute<T>(year: nat, month: string, fetch: string -> TableFetch<T>, unbound: string)
    ensures year != 2025 ==> GetExamMcqs(year, month, fetch).status == 404
    ensures year == 2023 || year == 2024 ==> GetExamMcqs(year, month, fetch) == Fail(404, DataSoon(month, year))
    ensures year == 2025 ==> GetExamMcqs(year, month, fetch) == GetExamMcqsAsWritten(year, month, fetch, unbound)
  {
  }

  /** `get_exam_mcqs_old(month)`: the year-less route. */
  function GetExamMcqsOld<T>(month: string, fetch: string -> TableFetch<T>): (r: Response<T>)
    ensures r == GetExamMcqs(2025, month, fetch)
  {
    GetExamMcqs(2025, month, fetch)
  }

  /** For 2025 a known month in any letter case fetches its own table, and
      an empty table is the 404 "will be updated soon". */
  lemma Exam2025Table<T>(month: string, fetch: string -> TableFetch<T>)
    requires Text.Lower(month) in MONTHS
    ensures MonthTableName(2025, month) == Text.Lower(month) + "25_mcqs"
    ensures MonthTableName(2025, Text.Upper(month)) == MonthTableName(2025, month)
    ensures fetch(MonthTableName(2025, month)) == TableRows([]) ==> GetExamMcqsOld(month, fetch) == Fail(404, UpdatedSoon(2025))
  {
    assert YearSuffix(2025) == "25";
    DbHandler.LowerUpper(month);
  }

  // ---------------------------------------------------------------------------
  // The mock test

  /** A row of the mock query, in the selected column order. */
  datatype MockRow = MockRow(
    id: int, number: string, text: string,
    a: Option<string>, b: Option<string>, c: Option<string>, d: Option<string>,
    answer: string, subject: string, explanation: Option<string>)

  datatype MockItem = MockItem(
    id: int, number: string, text: string, options: Dict<string>,
    answer: string, subject: string, explanation: Option<string>)

  /** The dict built from one row: only truthy options. */
  function MockItemOf(row: MockRow): (r: MockItem)
    ensures r.options == DbHandler.PresentOptions(row.a, row.b, row.c, row.d)
    ensures r.id == row.id && r.number == row.number && r.text == row.text
    ensures r.answer == row.answer && r.subject == row.subject && r.explanation == row.explanation
  {
    MockItem(row.id, row.number, row.text, DbHandler.PresentOptions(row.a, row.b, row.c, row.d),
      row.answer, row.subject, row.explanation)
  }

  const MONTH_TABLE_NAMES: seq<string> := ["january25_mcqs", "february25_mcqs", "march25_mcqs",
    "april25_mcqs", "may25_mcqs", "june25_mcqs", "july25_mcqs", "august25_mcqs",
    "september25_mcqs", "october25_mcqs", "november25_mcqs", "december25_mcqs"]

  /** The per-subject quotas, in query order. */
  const SUBJECT_LIMITS: seq<(string, nat)> := [("Medicine", 70), ("Paeds", 50), ("Gynae", 40), ("Surgery", 30)]

  /** The existence checks: a table is used when the check says it exists;
      a check that raises (None) skips the table. */
  function ExistingTables(tables: seq<string>, exists_: string -> Option<bool>): (r: seq<string>)
    ensures |r| <= |tables|
    ensures forall t :: t in r <==> t in tables && exists_(t) == Some(true)
    decreases |tables|
  {
    if tables == [] then []
    else
      var rest := ExistingTables(tables[..|tables| - 1], exists_);
      var t := tables[|tables| - 1];
      if exists_(t) == Some(true) then rest + [t] else rest
  }

  /** What one subject's query gave: rows, or an exception. */
  datatype QueryResult = QueryRows(rows: seq<MockRow>) | QueryRaised

  /** `LIMIT n`: the first n rows the database produced. */
  function Limit(rows: seq<MockRow>, n: nat): (r: seq<MockRow>)
    ensures |r| <= n && |r| <= |rows| && r == rows[..|r|]
    ensures |rows| <= n ==> r == rows
  {
    if |rows| <= n then rows else rows[..n]
  }

  /** The rows one subject's query contributes: none when it raises. */
  function Fetched(query: (string, nat, seq<string>) -> QueryResult, subject: string, limit: nat, tables: seq<string>): seq<MockRow> {
    match query(subject, limit, tables)
    case QueryRaised => []
    case QueryRows(rows) => Limit(rows, limit)
  }

  /** The rows mapped to items, one for one. */
  function Items(rows: seq<MockRow>): (r: seq<MockItem>)
    ensures |r| == |rows|
    ensures forall i :: 0 <= i < |r| ==> r[i] == MockItemOf(rows[i])
  {
    seq(|rows|, i requires 0 <= i < |rows| => MockItemOf(rows[i]))
  }

  /** The subjects' rows, mapped and concatenated in quota order; a
      subject whose query raises contributes nothing. */
  function Collect(limits: seq<(string, nat)>, tables: seq<string>, query: (string, nat, seq<string>) -> QueryResult): (r: seq<MockItem>)
    ensures |r| <= QuotaSum(limits)
    decreases |limits|
  {
    if limits == [] then []
    else
      var last := limits[|limits| - 1];
      Collect(limits[..|limits| - 1], tables, query) + Items(Fetched(query, last.0, last.1, tables))
  }

  function QuotaSum(limits: seq<(string, nat)>): nat
    decreases |limits|
  {
    if limits == [] then 0 else QuotaSum(limits[..|limits| - 1]) + limits[|limits| - 1].1
  }

  /** `get_mock_test_mcqs()` before the shuffle. */
  function MockTest(exists_: string -> Option<bool>, query: (string, nat, seq<string>) -> QueryResult): (r: Response<MockItem>)
    ensures ExistingTables(MONTH_TABLE_NAMES, exists_) == [] ==> r == Fail(404, "No MCQ tables found")
    ensures ExistingTables(MONTH_TABLE_NAMES, exists_) != [] ==>
      r == Ok(Collect(SUBJECT_LIMITS, ExistingTables(MONTH_TABLE_NAMES, exists_), query))
  {
    var tables := ExistingTables(MONTH_TABLE_NAMES, exists_);
    if tables == [] then Fail(404, "No MCQ tables found") else Ok(Collect(SUBJECT_LIMITS, tables, query))
  }

  /** At most 70 + 50 + 40 + 30 = 190 questions, each showing only its
      non-empty options. */
  lemma MockTestBounded(exists_: string -> Option<bool>, query: (string, nat, seq<string>) -> QueryResult)
    ensures MockTest(exists_, query).Ok? ==> |MockTest(exists_, query).items| <= 190
    ensures MockTest(exists_, query).Ok? ==> forall i :: 0 <= i < |MockTest(exists_, query).items| ==>
      var o := MockTest(exists_, query).items[i].options;
      forall j :: 0 <= j < |o| ==> o[j].1 != ""
  {
    var l := SUBJECT_LIMITS;
    assert l[..1][..0] == l[..0] && l[..2][..1] == l[..1] && l[..3][..2] == l[..2] && l[..3] == l[..|l| - 1];
    assert QuotaSum(l[..0]) == 0;
    assert QuotaSum(l[..1]) == 70;
    assert QuotaSum(l[..2]) == 120;
    assert QuotaSum(l[..3]) == 160;
    assert QuotaSum(l) == 190;
    var r := MockTest(exists_, query);
    if r.Ok? {
      forall i | 0 <= i < |r.items| ensures forall j :: 0 <= j < |r.items[i].options| ==> r.items[i].options[j].1 != "" {
        CollectOptions(SUBJECT_LIMITS, ExistingTables(MONTH_TABLE_NAMES, exists_), query, i);
      }
    }
  }

  lemma {:induction false} CollectOptions(limits: seq<(string, nat)>, tables: seq<string>, query: (string, nat, seq<string>) -> QueryResult, i: nat)
    requires i < |Collect(limits, tables, query)|
    ensures exists row :: Collect(limits, tables, query)[i] == MockItemOf(row)
    decreases |limits|
  {
    var init := limits[..|limits| - 1];
    var last := limits[|limits| - 1];
    var front := Collect(init, tables, query);
    var items := Items(Fetched(query, last.0, last.1, tables));
    assert Collect(limits, tables, query) == front + items;
    if i < |front| {
      CollectOptions(init, tables, query, i);
      assert Collect(limits, tables, query)[i] == front[i];
    } else {
      assert Collect(limits, tables, query)[i] == items[i - |front|];
    }
  }
}
