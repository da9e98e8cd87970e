/** CSV export of benchmark results and the row splitter that reads it back. */
module Csv {

  // ----- writing -------------------------------------------------------------------

  /** Whether a field has to be quoted. */
  predicate Special(field: string) {
    ',' in field || '"' in field || '\n' in field
  }

  /** Every quote doubled. */
  function Doubled(s: string): string {
    if s == [] then []
    else (if s[0] == '"' then ['"', '"'] else [s[0]]) + Doubled(s[1..])
  }

  function Escape(field: string): string {
    if Special(field) then ['"'] + Doubled(field) + ['"'] else field
  }

  function Join(fields: seq<string>): string
    requires fields != []
  {
    if |fields| == 1 then fields[0] else fields[0] + [','] + Join(fields[1..])
  }

  function Escaped(fields: seq<string>): (r: seq<string>)
    ensures |r| == |fields|
  {
    seq(|fields|, k requires 0 <= k < |fields| => Escape(fields[k]))
  }

  /** A formatted number: nothing in it needs quoting. */
  type Numeral = s: string | !Special(s)

  // Column names, in the order of the row format.
  const LABELS: seq<string> := ["candidate", "scenario", "concurrency", "payload_bytes", "http_version"]
  const COUNTS: seq<string> := ["total_requests", "successful", "failed", "error_responses", "bytes_received"]
  const RATES: seq<string> := ["duration_s", "rps", "throughput_mib_s"]
  const QUANTILES: seq<string> := ["p50_us", "p90_us", "p95_us", "p99_us", "p999_us", "p9999_us"]
  const SPREADS: seq<string> := ["max_us", "mean_us", "stdev_us", "co_p99_us", "co_p999_us"]
  const LOADS: seq<string> := ["cpu_pct", "rss_mb"]
  const COLUMNS: seq<string> := LABELS + COUNTS + RATES + QUANTILES + SPREADS + LOADS

  predicate AllBare(fields: seq<string>) {
    forall k :: 0 <= k < |fields| ==> !Special(fields[k])
  }

  /** One measurement; the numbers are already in their printed form. */
  datatype BenchmarkResult = BenchmarkResult(
    candidateName: string, scenarioName: string, concurrency: Numeral, payloadBytes: Numeral,
    httpVersion: string, figures: seq<Numeral>)

  /** `total_requests` to `rss_mb`: the 21 figures after the HTTP version. */
  predicate Complete(r: BenchmarkResult) {
    |r.figures| == 21
  }

  /** What a reader of the report should see in one row. */
  function FieldsOf(r: BenchmarkResult): (fields: seq<string>)
    ensures |fields| == 5 + |r.figures|
  {
    [r.candidateName, r.scenarioName, r.concurrency, r.payloadBytes, r.httpVersion] + r.figures
  }

  /** The row as printed: only the three names go through the quoting. */
  function Row(r: BenchmarkResult): string {
    Join([Escape(r.candidateName), Escape(r.scenarioName), r.concurrency, r.payloadBytes,
          Escape(r.httpVersion)] + r.figures)
  }

  function Rows(results: seq<BenchmarkResult>): string {
    if results == [] then [] else Row(results[0]) + ['\n'] + Rows(results[1..])
  }

  /** A header line, then one line for each result. */
  method ExportRows(columns: seq<string>, results: seq<BenchmarkResult>) returns (csv: string)
    requires columns != [] && AllBare(columns)
    ensures csv == Join(columns) + ['\n'] + Rows(results)
    ensures ReadDocument(csv) == [columns] + AllFields(results)
  {
    csv := Join(columns);
    csv := csv + ['\n'];
    for i := 0 to |results|
      invariant csv + Rows(results[i..]) == Join(columns) + ['\n'] + Rows(results)
    {
      assert results[i..][0] == results[i] && results[i..][1..] == results[i + 1..];
      csv := csv + Row(results[i]) + ['\n'];
    }
    ReportReadsBack(columns, results);
  }

  /** The report reads back as the columns and the fields of every result, one value per column. */
  method ExportCsv(results: seq<BenchmarkResult>) returns (csv: string)
    requires forall r :: r in results ==> Complete(r)
    ensures ReadDocument(csv) == [COLUMNS] + AllFields(results)
    ensures forall fields :: fields in ReadDocument(csv) ==> |fields| == 26 == |COLUMNS|
  {
    HeaderIsBare();
    csv := ExportRows(COLUMNS, results);
    OneValuePerColumn(COLUMNS, results);
  }

  // ----- reading ---------------------------------------------------------------------

  /** The fields of the rest of a row, given the field under way. */
  function SplitFrom(rest: string, current: string, inQuotes: bool): (fields: seq<string>)
    ensures fields != []
    decreases |rest|
  {
    if rest == [] then [current]
    else if rest[0] == '"' then
      if inQuotes && |rest| > 1 && rest[1] == '"' then SplitFrom(rest[2..], current + ['"'], true)
      else SplitFrom(rest[1..], current, !inQuotes)
    else if rest[0] == ',' && !inQuotes then [current] + SplitFrom(rest[1..], [], false)
    else SplitFrom(rest[1..], current + [rest[0]], inQuotes)
  }

  method SplitCsvRow(row: string) returns (fields: seq<string>)
    ensures fields == SplitFrom(row, [], false)
  {
    fields := [];
    var current, inQuotes, i := [], false, 0;
    while i < |row|
      invariant 0 <= i <= |row|
      invariant fields + SplitFrom(row[i..], current, inQuotes) == SplitFrom(row, [], false)
    {
      var c := row[i];
      i := i + 1;
      if c == '"' && inQuotes && i < |row| && row[i] == '"' {
        current := current + ['"'];
        i := i + 1;
      } else if c == '"' {
        inQuotes := !inQuotes;
      } else if c == ',' && !inQuotes {
        fields := fields + [current];
        current := [];
      } else {
        current := current + [c];
      }
    }
    fields := fields + [current];
  }

  /** Records of a document (section 2 of RFC 4180): cut at the line feeds outside quotes. */
  function Records(doc: string, line: string, open: bool): seq<string>
    decreases |doc|
  {
    if doc == [] then (if line == [] then [] else [line])
    else if doc[0] == '\n' && !open then [line] + Records(doc[1..], [], false)
    else Records(doc[1..], line + [doc[0]], open != (doc[0] == '"'))
  }

  function SplitAll(rows: seq<string>): (r: seq<seq<string>>)
    ensures |r| == |rows|
  {
    seq(|rows|, k requires 0 <= k < |rows| => SplitFrom(rows[k], [], false))
  }

  function ReadDocument(doc: string): seq<seq<string>> {
    SplitAll(Records(doc, [], false))
  }

  function AllFields(results: seq<BenchmarkResult>): (r: seq<seq<string>>)
    ensures |r| == |results|
  {
    seq(|results|, k requires 0 <= k < |results| => FieldsOf(results[k]))
  }

  // ----- one row reads back ------------------------------------------------------------

  lemma {:induction false} QuotedBody(s: string, rest: string, current: string)
    requires rest == [] || rest[0] != '"'
    ensures SplitFrom(Doubled(s) + ['"'] + rest, current, true) == SplitFrom(rest, current + s, false)
    decreases |s|
  {
    var text := Doubled(s) + ['"'] + rest;
    if s == [] {
      assert text[1..] == rest && current + s == current;
    } else {
      var n := if s[0] == '"' then 2 else 1;
      assert text[n..] == Doubled(s[1..]) + ['"'] + rest;
      assert current + s == (current + [s[0]]) + s[1..];
      QuotedBody(s[1..], rest, current + [s[0]]);
    }
  }

  lemma {:induction false} BareField(s: string, rest: string, current: string)
    requires ',' !in s && '"' !in s
    ensures SplitFrom(s + rest, current, false) == SplitFrom(rest, current + s, false)
    decreases |s|
  {
    if s == [] {
      assert s + rest == rest && current + s == current;
    } else {
      assert s[0] in s;
      assert (s + rest)[1..] == s[1..] + rest;
      assert current + s == (current + [s[0]]) + s[1..];
      BareField(s[1..], rest, current + [s[0]]);
    }
  }

  lemma QuotedField(s: string, rest: string)
    requires rest == [] || rest[0] == ','
    ensures SplitFrom(['"'] + Doubled(s) + ['"'] + rest, [], false) == SplitFrom(rest, s, false)
  {
    var body := Doubled(s) + ['"'] + rest;
    assert ['"'] + Doubled(s) + ['"'] + rest == ['"'] + body;
    assert SplitFrom(['"'] + body, [], false) == SplitFrom(body, [], true);
    QuotedBody(s, rest, []);
    assert [] + s == s;
  }

  lemma EscapedField(s: string, rest: string)
    requires rest == [] || rest[0] == ','
    ensures SplitFrom(Escape(s) + rest, [], false) == SplitFrom(rest, s, false)
  {
    if Special(s) {
      QuotedField(s, rest);
    } else {
      BareField(s, rest, []);
      assert [] + s == s;
    }
  }

  /** Escaping, joining and splitting gives the fields back, whatever they contain. */
  lemma {:induction false} RowRoundTrip(fields: seq<string>)
    requires fields != []
    ensures SplitFrom(Join(Escaped(fields)), [], false) == fields
    decreases |fields|
  {
    var es := Escaped(fields);
    if |fields| == 1 {
      EscapedField(fields[0], []);
      assert es[0] + [] == es[0];
    } else {
      assert es[1..] == Escaped(fields[1..]);
      var rest := [','] + Join(es[1..]);
      assert Join(es) == es[0] + rest;
      EscapedField(fields[0], rest);
      assert rest[1..] == Join(es[1..]);
      RowRoundTrip(fields[1..]);
    }
  }

  function Total(fields: seq<string>): nat {
    if fields == [] then 0 else |fields[0]| + Total(fields[1..])
  }

  /** Splitting never adds characters, and drops every separator and quote. */
  lemma {:induction false} SplitShrinks(rest: string, current: string, inQuotes: bool)
    ensures Total(SplitFrom(rest, current, inQuotes)) <= |current| + |rest|
    ensures '"' in rest || (',' in rest && !inQuotes)
      ==> Total(SplitFrom(rest, current, inQuotes)) < |current| + |rest|
    decreases |rest|
  {
    if rest != [] {
      if rest[0] == '"' {
        if inQuotes && |rest| > 1 && rest[1] == '"' {
          SplitShrinks(rest[2..], current + ['"'], true);
        } else {
          SplitShrinks(rest[1..], current, !inQuotes);
        }
      } else if rest[0] == ',' && !inQuotes {
        SplitShrinks(rest[1..], [], false);
        assert SplitFrom(rest, current, inQuotes)[1..] == SplitFrom(rest[1..], [], false);
      } else {
        SplitShrinks(rest[1..], current + [rest[0]], inQuotes);
      }
    }
  }

  lemma {:induction false} DoubledGrows(s: string)
    ensures |Doubled(s)| >= |s|
  {
    if s != [] { DoubledGrows(s[1..]); }
  }

  /** A field is written bare exactly if it holds no comma, no quote and no line break. */
  lemma BareWhenPlain(field: string)
    ensures Escape(field) == field <==> ',' !in field && '"' !in field && '\n' !in field
  {
    DoubledGrows(field);
  }

  /** An unquoted field survives exactly when it holds no comma and no quote. */
  lemma BareFieldSurvives(field: string)
    ensures SplitFrom(field, [], false) == [field] <==> ',' !in field && '"' !in field
  {
    if ',' !in field && '"' !in field {
      BareField(field, [], []);
      assert field + [] == field && [] + field == field;
    } else {
      SplitShrinks(field, [], false);
      assert Total([field]) == |field| + Total([]);
    }
  }

  // ----- the whole report reads back -----------------------------------------------------

  /** Quotes are closed at the end, and every line feed is inside quotes. */
  predicate Whole(s: string, open: bool) {
    if s == [] then !open
    else (s[0] == '\n' ==> open) && Whole(s[1..], open != (s[0] == '"'))
  }

  lemma {:induction false} WholeAppend(a: string, b: string, open: bool)
    requires Whole(a, open) && Whole(b, false)
    ensures Whole(a + b, open)
    decreases |a|
  {
    if a == [] {
      assert a + b == b;
    } else {
      assert (a + b)[1..] == a[1..] + b;
      WholeAppend(a[1..], b, open != (a[0] == '"'));
    }
  }

  lemma {:induction false} WholeQuoted(s: string)
    ensures Whole(Doubled(s) + ['"'], true)
  {
    var text := Doubled(s) + ['"'];
    if s == [] {
      assert text[1..] == [];
    } else {
      WholeQuoted(s[1..]);
      var tail := Doubled(s[1..]) + ['"'];
      if s[0] == '"' {
        assert text[1..][1..] == tail;
        assert Whole(text[1..], false);
      } else {
        assert text[1..] == tail;
      }
    }
  }

  lemma {:induction false} WholeBare(s: string)
    requires '"' !in s && '\n' !in s
    ensures Whole(s, false)
  {
    if s != [] { WholeBare(s[1..]); }
  }

  lemma EscapeWhole(field: string)
    ensures Whole(Escape(field), false)
  {
    if Special(field) {
      WholeQuoted(field);
      assert Escape(field)[1..] == Doubled(field) + ['"'];
    } else {
      WholeBare(field);
    }
  }

  lemma {:induction false} JoinWhole(fields: seq<string>)
    requires fields != []
    ensures Whole(Join(Escaped(fields)), false)
    decreases |fields|
  {
    var es := Escaped(fields);
    EscapeWhole(fields[0]);
    if |fields| > 1 {
      assert es[1..] == Escaped(fields[1..]);
      JoinWhole(fields[1..]);
      WholeBare([',']);
      WholeAppend([','], Join(es[1..]), false);
      WholeAppend(es[0], [','] + Join(es[1..]), false);
      assert Join(es) == es[0] + ([','] + Join(es[1..]));
    }
  }

  lemma {:induction false} CutRecord(row: string, rest: string, line: string, open: bool)
    requires Whole(row, open)
    ensures Records(row + ['\n'] + rest, line, open) == [line + row] + Records(rest, [], false)
    decreases |row|
  {
    var doc := row + ['\n'] + rest;
    if row == [] {
      assert doc[1..] == rest && line + row == line;
    } else {
      assert doc[1..] == row[1..] + ['\n'] + rest;
      assert line + row == (line + [row[0]]) + row[1..];
      CutRecord(row[1..], rest, line + [row[0]], open != (row[0] == '"'));
    }
  }

  lemma RowIsEscaped(r: BenchmarkResult)
    ensures Row(r) == Join(Escaped(FieldsOf(r)))
  {
    assert [Escape(r.candidateName), Escape(r.scenarioName), r.concurrency, r.payloadBytes,
            Escape(r.httpVersion)] + r.figures == Escaped(FieldsOf(r));
  }

  /** One row in front of a document is one record in front of its records. */
  lemma RecordReadsBack(fields: seq<string>, rest: string)
    requires fields != []
    ensures ReadDocument(Join(Escaped(fields)) + ['\n'] + rest) == [fields] + ReadDocument(rest)
  {
    var row := Join(Escaped(fields));
    JoinWhole(fields);
    CutRecord(row, rest, [], false);
    assert [] + row == row;
    RowRoundTrip(fields);
  }

  lemma {:induction false} RowsReadBack(results: seq<BenchmarkResult>)
    ensures ReadDocument(Rows(results)) == AllFields(results)
  {
    if results != [] {
      RowsReadBack(results[1..]);
      RowIsEscaped(results[0]);
      RecordReadsBack(FieldsOf(results[0]), Rows(results[1..]));
      assert AllFields(results) == [FieldsOf(results[0])] + AllFields(results[1..]);
    }
  }

  lemma BareLabels()
    ensures AllBare(LABELS)
  {
  }

  lemma BareCounts()
    ensures AllBare(COUNTS) && AllBare(LOADS)
  {
  }

  lemma BareRates()
    ensures AllBare(RATES)
  {
  }

  lemma BareQuantiles()
    ensures AllBare(QUANTILES)
  {
  }

  lemma BareSpreads()
    ensures AllBare(SPREADS)
  {
  }

  lemma BareAppend(a: seq<string>, b: seq<string>)
    requires AllBare(a) && AllBare(b)
    ensures AllBare(a + b)
  {
  }

  lemma HeaderIsBare()
    ensures |COLUMNS| == 26 && AllBare(COLUMNS)
  {
    BareLabels();
    BareCounts();
    BareRates();
    BareQuantiles();
    BareSpreads();
    BareAppend(LABELS, COUNTS);
    BareAppend(LABELS + COUNTS, RATES);
    BareAppend(LABELS + COUNTS + RATES, QUANTILES);
    BareAppend(LABELS + COUNTS + RATES + QUANTILES, SPREADS);
    BareAppend(LABELS + COUNTS + RATES + QUANTILES + SPREADS, LOADS);
  }

  lemma OneValuePerColumn(columns: seq<string>, results: seq<BenchmarkResult>)
    requires |columns| == 26 && forall r :: r in results ==> Complete(r)
    ensures forall fields :: fields in [columns] + AllFields(results) ==> |fields| == 26
  {
    forall fields | fields in AllFields(results) ensures |fields| == 26 {
      var k :| 0 <= k < |results| && AllFields(results)[k] == fields;
      assert results[k] in results;
    }
  }

  /** The exported report reads back as its header and the fields of every result. */
  lemma ReportReadsBack(columns: seq<string>, results: seq<BenchmarkResult>)
    requires columns != [] && AllBare(columns)
    ensures ReadDocument(Join(columns) + ['\n'] + Rows(results)) == [columns] + AllFields(results)
  {
    assert Escaped(columns) == columns;
    RowsReadBack(results);
    RecordReadsBack(columns, Rows(results));
  }
}
