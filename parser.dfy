/** The portal's HTML tables turned into records (college_result_notifier/parser.py).
    HTML parsing itself is not modelled: a table arrives as its rows of cells,
    each cell with its tag and its extracted text. */
module Parser {
  import opened Wrappers
  import opened Dicts
  import opened Text
  import Changes

  type Record = Changes.Record

  // ----- cell text -----

  /** `_clean_text`: surrounding whitespace removed, then every no-break
      space turned into a plain space. */
  function CleanText(v: string): (r: string)
    ensures r == [] <==> forall i :: 0 <= i < |v| ==> IsSpace(v[i])
    ensures r != [] ==> !IsSpace(r[0]) && !IsSpace(r[|r| - 1])
    ensures forall i :: 0 <= i < |r| ==> r[i] != '\U{A0}'
  {
    var s := Strip(v);
    assert s != [] ==> s[0] != '\U{A0}' && s[|s| - 1] != '\U{A0}';
    ReplaceChar(s, '\U{A0}', ' ')
  }

  /** Cleaning twice is cleaning once: a cleaned cell is stored as it reads. */
  lemma CleanTextIdempotent(v: string)
    ensures CleanText(CleanText(v)) == CleanText(v)
  {
    var r := CleanText(v);
    assert Strip(r) == r;
    ReplaceCharAbsent(r, '\U{A0}', ' ');
  }

  // ----- header names -----

  /** How many characters at the front of `s` are not ASCII letters or digits. */
  function LeadingNonAlnum(s: string): (n: nat)
    ensures n <= |s|
    ensures forall i :: 0 <= i < n ==> !IsAsciiAlnum(s[i])
    ensures n < |s| ==> IsAsciiAlnum(s[n])
  {
    if s != [] && !IsAsciiAlnum(s[0]) then
      var n := 1 + LeadingNonAlnum(s[1..]);
      assert forall i :: 1 <= i < n ==> s[i] == s[1..][i - 1];
      n
    else 0
  }

  /** Only ASCII letters, digits and single spaces. */
  ghost predicate AlnumSpaced(s: string) {
    && (forall i :: 0 <= i < |s| ==> IsAsciiAlnum(s[i]) || s[i] == ' ')
    && (forall i, j :: 0 <= i < j < |s| && j == i + 1 ==> s[i] == ' ' ==> s[j] != ' ')
  }

  /** `re.sub(r"[^A-Za-z0-9]+", " ", s)`: each maximal run of characters that
      are not ASCII letters or digits becomes one space. */
  function SubNonAlnum(s: string): (r: string)
    ensures AlnumSpaced(r)
    ensures r == [] <==> s == []
    ensures s != [] && IsAsciiAlnum(s[0]) ==> r[0] == s[0]
    ensures s != [] && !IsAsciiAlnum(s[0]) ==> r[0] == ' '
    ensures (forall i :: 0 <= i < |s| ==> !IsAsciiAlnum(s[i])) ==> forall i :: 0 <= i < |r| ==> r[i] == ' '
    decreases |s|
  {
    if s == [] then []
    else if IsAsciiAlnum(s[0]) then
      var rest := SubNonAlnum(s[1..]);
      assert forall i :: 1 <= i < |s| ==> s[i] == s[1..][i - 1];
      [s[0]] + rest
    else
      var k := LeadingNonAlnum(s);
      var rest := SubNonAlnum(s[k..]);
      assert k < |s| ==> s[k..][0] == s[k];
      [' '] + rest
  }

  predicate IsLowerAlnum(c: char) {
    'a' <= c <= 'z' || '0' <= c <= '9'
  }

  predicate IsNameChar(c: char) {
    IsLowerAlnum(c) || c == '_'
  }

  /** The shape of every normalised header: lower-case letters and digits in
      groups joined by single underscores. */
  ghost predicate IsNormalizedName(n: string) {
    && n != []
    && (forall i :: 0 <= i < |n| ==> IsNameChar(n[i]))
    && n[0] != '_' && n[|n| - 1] != '_'
    && (forall i, j :: 0 <= i < j < |n| && j == i + 1 ==> n[i] == '_' ==> n[j] != '_')
  }

  /** The text `_normalize_header` splits: substituted, stripped, lower-cased. */
  function NormalizedText(v: string): string {
    Lower(Strip(SubNonAlnum(v)))
  }

  /** `_normalize_header`: the ASCII words of the header, lower-cased and
      joined by `_`, or `column` when there are none. */
  function NormalizeHeader(v: string): string {
    var m := NormalizedText(v);
    if m == [] then "column" else Join(Split(m), "_")
  }

  /** Every normalised header is a normalised name, and a header without an
      ASCII letter or digit normalises to `column`. */
  lemma NormalizeHeaderShape(v: string)
    ensures IsNormalizedName(NormalizeHeader(v))
    ensures (forall i :: 0 <= i < |v| ==> !IsAsciiAlnum(v[i])) ==> NormalizeHeader(v) == "column"
  {
    var m := NormalizedText(v);
    NormalizedTextShape(v);
    if m != [] {
      JoinSplitSingleSpaced(m);
      NameFromSpaced(m);
    }
  }

  /** Stripping a string of letters, digits and single spaces leaves it single-spaced. */
  lemma StripAlnumSpaced(x: string)
    requires AlnumSpaced(x)
    ensures AlnumSpaced(Strip(x))
    ensures Strip(x) != [] ==> SingleSpaced(Strip(x))
  {
    var m := Strip(x);
    var a := StripStart(x);
    AlnumSpacedSlice(x, a, a + |m|);
  }

  lemma AlnumSpacedSlice(x: string, a: nat, b: nat)
    requires AlnumSpaced(x) && a <= b <= |x|
    ensures AlnumSpaced(x[a..b])
  {
    var m := x[a..b];
    assert forall i :: 0 <= i < |m| ==> m[i] == x[a + i];
  }

  /** What `_normalize_header` splits is empty or single-spaced lower-case words,
      and is all spaces when the header has no ASCII letter or digit. */
  lemma NormalizedTextShape(v: string)
    ensures var m := NormalizedText(v);
      && (m != [] ==> SingleSpaced(m))
      && (forall i :: 0 <= i < |m| ==> IsLowerAlnum(m[i]) || m[i] == ' ')
      && ((forall i :: 0 <= i < |v| ==> !IsAsciiAlnum(v[i])) ==> m == [])
  {
    var x := SubNonAlnum(v);
    StripAlnumSpaced(x);
    LowerAlnumSpaced(Strip(x));
    if (forall i :: 0 <= i < |v| ==> !IsAsciiAlnum(v[i])) {
      assert forall i :: 0 <= i < |x| ==> IsSpace(x[i]);
    }
  }

  /** Lower-casing letters, digits and spaces keeps the spaces where they are. */
  lemma LowerAlnumSpaced(s: string)
    requires AlnumSpaced(s)
    ensures forall i :: 0 <= i < |s| ==> IsLowerAlnum(Lower(s)[i]) || Lower(s)[i] == ' '
    ensures s != [] && SingleSpaced(s) ==> SingleSpaced(Lower(s))
  {
    var m := Lower(s);
    assert forall i :: 0 <= i < |m| ==> (s[i] == ' ' <==> m[i] == ' ') && (s[i] != ' ' ==> IsLowerAlnum(m[i]));
  }

  /** Replacing the spaces of single-spaced lower-case words by `_` gives a normalised name. */
  lemma NameFromSpaced(m: string)
    requires SingleSpaced(m)
    requires forall i :: 0 <= i < |m| ==> IsLowerAlnum(m[i]) || m[i] == ' '
    ensures IsNormalizedName(ReplaceChar(m, ' ', '_'))
  {
  }

  /** On a normalised name, the substitution turns each `_` back into a space. */
  lemma {:induction false} SubOnName(n: string)
    requires forall i :: 0 <= i < |n| ==> IsNameChar(n[i])
    requires forall i, j :: 0 <= i < j < |n| && j == i + 1 ==> n[i] == '_' ==> n[j] != '_'
    ensures SubNonAlnum(n) == ReplaceChar(n, '_', ' ')
    decreases |n|
  {
    if n != [] {
      var t := n[1..];
      assert forall i :: 0 <= i < |t| ==> t[i] == n[i + 1];
      SubOnName(t);
      if n[0] == '_' {
        assert LeadingNonAlnum(n) == 1;
        assert n[1..] == t;
      }
      assert ReplaceChar(n, '_', ' ') == [if n[0] == '_' then ' ' else n[0]] + ReplaceChar(t, '_', ' ');
    }
  }

  /** Normalising a normalised name changes nothing, so `_normalize_header`
      is idempotent. */
  lemma NormalizeHeaderIdempotent(v: string)
    ensures NormalizeHeader(NormalizeHeader(v)) == NormalizeHeader(v)
  {
    NormalizeHeaderShape(v);
    NormalizedNameFixed(NormalizeHeader(v));
  }

  lemma NormalizedNameFixed(n: string)
    requires IsNormalizedName(n)
    ensures NormalizeHeader(n) == n
  {
    SubOnName(n);
    var x := NameSpaced(n);
    assert Strip(x) == x;
    assert NormalizedText(n) == x;
    JoinSplitSingleSpaced(x);
  }

  /** A normalised name with its `_` read as spaces: single-spaced lower-case
      words, unchanged by lower-casing, and turned back by the reverse replacement. */
  lemma NameSpaced(n: string) returns (x: string)
    requires IsNormalizedName(n)
    ensures x == ReplaceChar(n, '_', ' ')
    ensures SingleSpaced(x) && Lower(x) == x
    ensures ReplaceChar(x, ' ', '_') == n
  {
    x := ReplaceChar(n, '_', ' ');
    NameAsSpaced(n, x);
    LowerSpacedIsSingleSpaced(x);
    LowerKeepsLowerAlnum(x);
    ReplaceSpacesBack(n, x);
  }

  /** Letters, digits and lone inner spaces. */
  ghost predicate LowerSpaced(x: string) {
    && x != [] && x[0] != ' ' && x[|x| - 1] != ' '
    && (forall i :: 0 <= i < |x| ==> IsLowerAlnum(x[i]) || x[i] == ' ')
    && (forall i, j :: 0 <= i < j < |x| && j == i + 1 ==> x[i] == ' ' ==> x[j] != ' ')
  }

  lemma NameAsSpaced(n: string, x: string)
    requires IsNormalizedName(n) && x == ReplaceChar(n, '_', ' ')
    ensures LowerSpaced(x)
  {
    assert forall i :: 0 <= i < |x| ==> (n[i] == '_' <==> x[i] == ' ') && (n[i] != '_' ==> x[i] == n[i]);
  }

  lemma LowerSpacedIsSingleSpaced(x: string)
    requires LowerSpaced(x)
    ensures SingleSpaced(x)
  {
    forall i | 0 <= i < |x| ensures IsSpace(x[i]) ==> x[i] == ' ' {
      if x[i] != ' ' {
        assert IsLowerAlnum(x[i]);
      }
    }
  }

  lemma LowerKeepsLowerAlnum(x: string)
    requires forall i :: 0 <= i < |x| ==> IsLowerAlnum(x[i]) || x[i] == ' '
    ensures Lower(x) == x
  {
    assert forall i :: 0 <= i < |x| ==> LowerChar(x[i]) == x[i];
  }

  lemma ReplaceSpacesBack(n: string, x: string)
    requires forall i :: 0 <= i < |n| ==> n[i] != ' '
    requires x == ReplaceChar(n, '_', ' ')
    ensures ReplaceChar(x, ' ', '_') == n
  {
  }

  // ----- tables -----

  datatype Tag = Th | Td

  /** One table cell: its tag and the text `get_text()` extracts from it. */
  datatype Cell = Cell(tag: Tag, text: string)

  /** The cells of one `<tr>`, in document order. */
  type Row = seq<Cell>

  /** The `ParseError` messages, one per way a table is refused. */
  datatype ParseError = TableNotFound | EmptyTable | UnexpectedHeaders | NoRows

  datatype Parsed = Parsed(records: seq<Record>) | Failed(error: ParseError)

  function Min(a: nat, b: nat): nat {
    if a <= b then a else b
  }

  /** `[_clean_text(cell.get_text()) for cell in row.find_all("td")]`: the
      cleaned texts of the data cells, header cells left out. */
  function DataTexts(row: Row): (vs: seq<string>)
    ensures |vs| <= |row|
    ensures vs == [] <==> forall i :: 0 <= i < |row| ==> row[i].tag == Th
    decreases |row|
  {
    if row == [] then []
    else
      var n := |row| - 1;
      var init := DataTexts(row[..n]);
      assert forall i :: 0 <= i < n ==> row[..n][i] == row[i];
      init + if row[n].tag == Td then [CleanText(row[n].text)] else []
  }

  lemma DataTextsClean(row: Row)
    ensures forall v :: v in DataTexts(row) ==> CleanText(v) == v
    decreases |row|
  {
    if row != [] {
      var n := |row| - 1;
      DataTextsClean(row[..n]);
      CleanTextIdempotent(row[n].text);
    }
  }

  // ----- the result table -----

  /** The header headings `parse_results` accepts. */
  const ExpectedColumns: set<string> :=
    {"semester", "course code", "course title", "credits", "grade", "grade / remark", "grade/remark", "result"}

  /** The record field a result header heading fills, if any. */
  function ResultField(heading: string): (f: Option<string>)
    ensures f.Some? <==> heading in ExpectedColumns
    ensures f.Some? ==> f.value in {"semester", "course_code", "course_title", "credits", "grade", "result"}
    ensures f == Some("semester") <==> heading == "semester"
    ensures f == Some("course_code") <==> heading == "course code"
    ensures f == Some("course_title") <==> heading == "course title"
    ensures f == Some("credits") <==> heading == "credits"
    ensures f == Some("grade") <==> heading == "grade" || heading == "grade / remark" || heading == "grade/remark"
    ensures f == Some("result") <==> heading == "result"
  {
    if heading == "semester" then Some("semester")
    else if heading == "course code" then Some("course_code")
    else if heading == "course title" then Some("course_title")
    else if heading == "credits" then Some("credits")
    else if heading == "grade" || heading == "grade / remark" || heading == "grade/remark" then Some("grade")
    else if heading == "result" then Some("result")
    else None
  }

  /** The lower-cased, cleaned headings of the first row's cells, header or data. */
  function HeaderTexts(row: Row): (ls: seq<string>)
    ensures |ls| == |row|
    ensures forall i :: 0 <= i < |row| ==> ls[i] == Lower(CleanText(row[i].text))
  {
    seq(|row|, i requires 0 <= i < |row| => Lower(CleanText(row[i].text)))
  }

  /** The record after the first `k` zipped columns of a result row. */
  function ResultRecordUpTo(headings: seq<string>, values: seq<string>, k: nat): Record
    requires k <= |headings| && k <= |values|
  {
    if k == 0 then Empty()
    else
      var r := ResultRecordUpTo(headings, values, k - 1);
      match ResultField(headings[k - 1])
      case Some(f) => Put(r, f, values[k - 1])
      case None => r
  }

  /** The record `parse_results` builds from one row's data cells. */
  function ResultRecord(headings: seq<string>, values: seq<string>): Record {
    ResultRecordUpTo(headings, values, Min(|headings|, |values|))
  }

  /** The last of the first `k` columns whose header fills field `f`. */
  function LastColumn(headings: seq<string>, k: nat, f: string): (j: Option<nat>)
    requires k <= |headings|
    ensures j.Some? ==> j.value < k && ResultField(headings[j.value]) == Some(f)
    ensures j.Some? ==> forall i :: j.value < i < k ==> ResultField(headings[i]) != Some(f)
    ensures j.None? ==> forall i :: 0 <= i < k ==> ResultField(headings[i]) != Some(f)
  {
    if k == 0 then None
    else if ResultField(headings[k - 1]) == Some(f) then Some(k - 1)
    else LastColumn(headings, k - 1, f)
  }

  /** `r` holds exactly the fields named by recognised headers among the first
      `k` columns, each with the value of the last such column. */
  ghost predicate HoldsColumns(headings: seq<string>, values: seq<string>, k: nat, r: Record)
    requires k <= |headings| && k <= |values|
  {
    forall f :: (f in r.vals <==> LastColumn(headings, k, f).Some?)
      && (f in r.vals ==> r.vals[f] == values[LastColumn(headings, k, f).value])
  }

  /** A result record holds exactly the fields named by recognised headers
      among the zipped columns, each with the value of the last such column. */
  lemma {:induction false} ResultRecordColumns(headings: seq<string>, values: seq<string>, k: nat)
    requires k <= |headings| && k <= |values|
    ensures HoldsColumns(headings, values, k, ResultRecordUpTo(headings, values, k))
  {
    if k > 0 {
      ResultRecordColumns(headings, values, k - 1);
      var prev := ResultRecordUpTo(headings, values, k - 1);
      match ResultField(headings[k - 1]) {
        case Some(g) => ColumnsPut(headings, values, k, prev, g);
        case None => ColumnsSkip(headings, values, k, prev);
      }
    }
  }

  lemma ColumnsPut(headings: seq<string>, values: seq<string>, k: nat, prev: Record, g: string)
    requires 0 < k <= |headings| && k <= |values|
    requires HoldsColumns(headings, values, k - 1, prev)
    requires ResultField(headings[k - 1]) == Some(g)
    ensures HoldsColumns(headings, values, k, Put(prev, g, values[k - 1]))
  {
    var r := Put(prev, g, values[k - 1]);
    forall f ensures (f in r.vals <==> LastColumn(headings, k, f).Some?)
      && (f in r.vals ==> r.vals[f] == values[LastColumn(headings, k, f).value])
    {
      if f != g {
        assert LastColumn(headings, k, f) == LastColumn(headings, k - 1, f);
      }
    }
  }

  lemma ColumnsSkip(headings: seq<string>, values: seq<string>, k: nat, prev: Record)
    requires 0 < k <= |headings| && k <= |values|
    requires HoldsColumns(headings, values, k - 1, prev)
    requires ResultField(headings[k - 1]).None?
    ensures HoldsColumns(headings, values, k, prev)
  {
    assert forall f :: LastColumn(headings, k, f) == LastColumn(headings, k - 1, f);
  }

  /** The records of the result rows after the header row. */
  function ResultRows(headings: seq<string>, body: seq<Row>): (rs: seq<Record>)
    ensures |rs| <= |body|
  {
    if body == [] then []
    else
      var n := |body| - 1;
      var values := DataTexts(body[n]);
      var record := ResultRecord(headings, values);
      ResultRows(headings, body[..n]) + if values != [] && record.keys != [] then [record] else []
  }

  /** One more body row extends the records by that row's record, if any. */
  lemma ResultRowsPrefix(headings: seq<string>, body: seq<Row>, i: nat)
    requires i < |body|
    ensures var values := DataTexts(body[i]); var record := ResultRecord(headings, values);
      ResultRows(headings, body[..i + 1])
        == ResultRows(headings, body[..i]) + if values != [] && record.keys != [] then [record] else []
  {
    var b := body[..i + 1];
    assert b[..i] == body[..i] && b[i] == body[i];
  }

  /** Some zipped column of a row sits under a recognised heading. */
  predicate HasRecognisedColumn(headings: seq<string>, values: seq<string>) {
    exists j :: 0 <= j < Min(|headings|, |values|) && ResultField(headings[j]).Some?
  }

  /** A row's result record is non-empty exactly when one of its zipped
      columns sits under a recognised heading. */
  lemma ResultRecordNonEmpty(headings: seq<string>, values: seq<string>)
    ensures ResultRecord(headings, values).keys != [] <==> HasRecognisedColumn(headings, values)
  {
    var k := Min(|headings|, |values|);
    var r := ResultRecord(headings, values);
    ResultRecordColumns(headings, values, k);
    if HasRecognisedColumn(headings, values) {
      var j :| 0 <= j < k && ResultField(headings[j]).Some?;
      var f := ResultField(headings[j]).value;
      assert LastColumn(headings, k, f).Some?;
      assert f in r.keys;
    }
    if r.keys != [] {
      var f := r.keys[0];
      assert f in r.vals;
      var j := LastColumn(headings, k, f).value;
      assert ResultField(headings[j]).Some?;
    }
  }

  /** No result record is collected exactly when no body row has a zipped
      column under a recognised heading. */
  lemma {:induction false} ResultRowsEmptyIff(headings: seq<string>, body: seq<Row>)
    ensures ResultRows(headings, body) == [] <==>
      forall i :: 0 <= i < |body| ==> !HasRecognisedColumn(headings, DataTexts(body[i]))
    decreases |body|
  {
    if body != [] {
      var n := |body| - 1;
      ResultRowsEmptyIff(headings, body[..n]);
      ResultRowsLast(headings, body);
      RowsSplitLast(headings, body);
    }
  }

  /** The last body row adds a record exactly when it has a recognised column. */
  lemma ResultRowsLast(headings: seq<string>, body: seq<Row>)
    requires body != []
    ensures var n := |body| - 1;
      ResultRows(headings, body) == [] <==>
        ResultRows(headings, body[..n]) == [] && !HasRecognisedColumn(headings, DataTexts(body[n]))
  {
    var values := DataTexts(body[|body| - 1]);
    ResultRecordNonEmpty(headings, values);
    assert values == [] ==> Min(|headings|, |values|) == 0;
  }

  /** A condition on every body row splits into the earlier rows and the last one. */
  lemma RowsSplitLast(headings: seq<string>, body: seq<Row>)
    requires body != []
    ensures var n := |body| - 1;
      (forall i :: 0 <= i < |body| ==> !HasRecognisedColumn(headings, DataTexts(body[i]))) <==>
        (forall i :: 0 <= i < n ==> !HasRecognisedColumn(headings, DataTexts(body[..n][i])))
        && !HasRecognisedColumn(headings, DataTexts(body[n]))
  {
    assert forall i :: 0 <= i < |body| - 1 ==> body[..|body| - 1][i] == body[i];
  }

  /** `parse_results` on a table found (or not) in the page. */
  function ParseResultsSpec(table: Option<seq<Row>>): Parsed {
    match table
    case None => Failed(TableNotFound)
    case Some(rows) =>
      if rows == [] then Failed(EmptyTable)
      else
        var headings := HeaderTexts(rows[0]);
        if !(exists l :: l in headings && l in ExpectedColumns) then Failed(UnexpectedHeaders)
        else
          var records := ResultRows(headings, rows[1..]);
          if records == [] then Failed(NoRows) else Parsed(records)
  }

  /** `for header, value in zip(normalized_headers, values)`: the loop that fills one result record. */
  method BuildResultRecord(headings: seq<string>, values: seq<string>) returns (record: Record)
    ensures record == ResultRecord(headings, values)
  {
    record := Empty();
    var j := 0;
    while j < Min(|headings|, |values|)
      invariant j <= Min(|headings|, |values|)
      invariant record == ResultRecordUpTo(headings, values, j)
    {
      match ResultField(headings[j]) {
        case Some(f) => record := Put(record, f, values[j]);
        case None =>
      }
      j := j + 1;
    }
  }

  /** `for row in rows[1:]`: the loop that collects the result records. */
  method CollectResultRows(headings: seq<string>, body: seq<Row>) returns (results: seq<Record>)
    ensures results == ResultRows(headings, body)
  {
    results := [];
    var i := 0;
    while i < |body|
      invariant i <= |body|
      invariant results == ResultRows(headings, body[..i])
    {
      var values := DataTexts(body[i]);
      if values != [] {
        var record := BuildResultRecord(headings, values);
        if record.keys != [] {
          results := results + [record];
        }
      }
      ResultRowsPrefix(headings, body, i);
      i := i + 1;
    }
    assert body[..i] == body;
  }

  /** `parse_results`. */
  method ParseResults(table: Option<seq<Row>>) returns (p: Parsed)
    ensures p == ParseResultsSpec(table)
  {
    if table.None? {
      return Failed(TableNotFound);
    }
    var rows := table.value;
    if |rows| == 0 {
      return Failed(EmptyTable);
    }
    var headings := HeaderTexts(rows[0]);
    if !(exists l :: l in headings && l in ExpectedColumns) {
      return Failed(UnexpectedHeaders);
    }
    var results := CollectResultRows(headings, rows[1..]);
    if results == [] {
      return Failed(NoRows);
    }
    return Parsed(results);
  }

  /** The field names a result record may carry. */
  const ResultFields: set<string> := {"semester", "course_code", "course_title", "credits", "grade", "result"}

  /** A result record holds only known field names, each with a cleaned cell text. */
  predicate ResultRecordShape(r: Record) {
    forall f :: f in r.vals ==> f in ResultFields && CleanText(r.vals[f]) == r.vals[f]
  }

  lemma ResultRecordHasShape(headings: seq<string>, row: Row)
    ensures ResultRecordShape(ResultRecord(headings, DataTexts(row)))
  {
    var values := DataTexts(row);
    var k := Min(|headings|, |values|);
    ResultRecordColumns(headings, values, k);
    DataTextsClean(row);
    var r := ResultRecord(headings, values);
    forall f | f in r.vals ensures f in ResultFields && CleanText(r.vals[f]) == r.vals[f] {
      var j := LastColumn(headings, k, f).value;
      assert values[j] in values;
    }
  }

  /** Every collected result record is non-empty and well-shaped. */
  lemma {:induction false} ResultRowsShape(headings: seq<string>, body: seq<Row>)
    ensures forall r :: r in ResultRows(headings, body) ==> r.keys != [] && ResultRecordShape(r)
    decreases |body|
  {
    if body != [] {
      var n := |body| - 1;
      ResultRowsShape(headings, body[..n]);
      ResultRecordHasShape(headings, body[n]);
    }
  }

  /** `parse_results` refuses a missing table, an empty table and a header row
      with no recognised label; otherwise it returns at least one record (at
      most one per body row), each non-empty, with known fields and cleaned values. */
  lemma ParseResultsOutcome(table: Option<seq<Row>>)
    ensures var p := ParseResultsSpec(table);
      && (p == Failed(TableNotFound) <==> table.None?)
      && (p == Failed(EmptyTable) <==> table.Some? && table.value == [])
      && (p == Failed(UnexpectedHeaders) <==>
            table.Some? && table.value != [] && forall l :: l in HeaderTexts(table.value[0]) ==> l !in ExpectedColumns)
      && (p == Failed(NoRows) <==>
            && table.Some? && table.value != []
            && (exists l :: l in HeaderTexts(table.value[0]) && l in ExpectedColumns)
            && forall i :: 1 <= i < |table.value| ==> !HasRecognisedColumn(HeaderTexts(table.value[0]), DataTexts(table.value[i])))
      && (p.Parsed? ==> table.Some? && 1 <= |p.records| < |table.value|)
      && (p.Parsed? ==> forall r :: r in p.records ==> r.keys != [] && ResultRecordShape(r))
  {
    if table.Some? && table.value != [] {
      var rows := table.value;
      ResultRowsShape(HeaderTexts(rows[0]), rows[1..]);
      BodyRowsEmptyIff(rows);
    }
  }

  /** `ResultRowsEmptyIff` stated over the table rows after the header row. */
  lemma BodyRowsEmptyIff(rows: seq<Row>)
    requires rows != []
    ensures ResultRows(HeaderTexts(rows[0]), rows[1..]) == [] <==>
      forall i :: 1 <= i < |rows| ==> !HasRecognisedColumn(HeaderTexts(rows[0]), DataTexts(rows[i]))
  {
    ResultRowsEmptyIff(HeaderTexts(rows[0]), rows[1..]);
    assert forall i :: 1 <= i < |rows| ==> rows[i] == rows[1..][i - 1];
  }

  // ----- the attendance table -----

  /** `f"column_{k}"`. */
  function ColumnName(k: nat): (n: string)
    ensures IsNormalizedName(n) && n != "column"
  {
    var digits := NatToString(k);
    var n := "column_" + digits;
    assert forall i :: 7 <= i < |n| ==> n[i] == digits[i - 7];
    assert n[6] == '_' && n[7] == digits[0];
    n
  }

  /** The normalised name of the header cell at `index` (0-based): its cleaned
      text, or `Column <index + 1>` when that is empty, normalised, with the bare
      fallback `column` replaced by `column_<index + 1>`. */
  function AttendanceHeader(text: string, index: nat): string {
    var t := CleanText(text);
    var heading := if t == [] then "Column " + NatToString(index + 1) else t;
    var n := NormalizeHeader(heading);
    if n == "column" then ColumnName(index + 1) else n
  }

  /** Every header name is a normalised name, and never the bare `column`. */
  lemma AttendanceHeaderShape(text: string, index: nat)
    ensures IsNormalizedName(AttendanceHeader(text, index)) && AttendanceHeader(text, index) != "column"
  {
    var t := CleanText(text);
    var heading := if t == [] then "Column " + NatToString(index + 1) else t;
    NormalizeHeaderShape(heading);
    var c := ColumnName(index + 1);
  }

  /** A column is named `column_<index + 1>` when its cleaned text is blank,
      when the header has no ASCII letter or digit, and when its text
      normalises to the bare `column`; otherwise it is named by its
      normalised cleaned text. */
  lemma AttendanceHeaderCases(text: string, index: nat)
    ensures var t := CleanText(text); var name := AttendanceHeader(text, index);
      && (t == [] || NormalizeHeader(t) == "column" ==> name == ColumnName(index + 1))
      && (t != [] && NormalizeHeader(t) != "column" ==> name == NormalizeHeader(t))
      && ((forall i :: 0 <= i < |text| ==> !IsAsciiAlnum(text[i])) ==> name == ColumnName(index + 1))
  {
    var t := CleanText(text);
    if t == [] {
      BlankColumnName(index + 1);
    }
    if forall i :: 0 <= i < |text| ==> !IsAsciiAlnum(text[i]) {
      CleanKeepsNoAlnum(text);
      NormalizeHeaderShape(t);
    }
  }

  /** Cleaning a text without ASCII letters or digits adds none. */
  lemma CleanKeepsNoAlnum(text: string)
    requires forall i :: 0 <= i < |text| ==> !IsAsciiAlnum(text[i])
    ensures forall i :: 0 <= i < |CleanText(text)| ==> !IsAsciiAlnum(CleanText(text)[i])
  {
    StripKeepsNoAlnum(text);
    assert CleanText(text) == ReplaceChar(Strip(text), '\U{A0}', ' ');
  }

  /** Stripping keeps a slice of the text, so it adds no ASCII letter or digit. */
  lemma StripKeepsNoAlnum(text: string)
    requires forall i :: 0 <= i < |text| ==> !IsAsciiAlnum(text[i])
    ensures forall i :: 0 <= i < |Strip(text)| ==> !IsAsciiAlnum(Strip(text)[i])
  {
    var s := Strip(text);
    forall i | 0 <= i < |s| ensures !IsAsciiAlnum(s[i]) {
      assert s[i] == text[StripStart(text) + i];
    }
  }

  /** The fallback heading `Column <k>` normalises to `column_<k>`. */
  lemma BlankColumnName(k: nat)
    ensures NormalizeHeader("Column " + NatToString(k)) == ColumnName(k)
  {
    var d := NatToString(k);
    var h := "Column " + d;
    var x := NameSpaced(ColumnName(k));
    ColumnHeading(d);
    SubAlnumSpacedFixed(h);
    LowerColumnHeading(d);
    SpacedColumnName(d);
    assert NormalizedText(h) == x;
    JoinSplitSingleSpaced(x);
  }

  /** `Column <digits>` is letters, digits and one space, and needs no stripping. */
  lemma ColumnHeading(d: string)
    requires d != [] && forall i :: 0 <= i < |d| ==> '0' <= d[i] <= '9'
    ensures AlnumSpaced("Column " + d) && Strip("Column " + d) == "Column " + d
  {
    var h := "Column " + d;
    assert forall i :: 7 <= i < |h| ==> h[i] == d[i - 7];
    assert !IsSpace(h[0]) && !IsSpace(h[|h| - 1]);
  }

  /** Lower-casing `Column <digits>` gives `column <digits>`. */
  lemma LowerColumnHeading(d: string)
    requires forall i :: 0 <= i < |d| ==> '0' <= d[i] <= '9'
    ensures Lower("Column " + d) == "column " + d
  {
    var h, x := "Column " + d, "column " + d;
    var l := Lower(h);
    forall i | 0 <= i < |h| ensures l[i] == x[i] {
      if i >= 7 {
        assert h[i] == d[i - 7] && x[i] == d[i - 7];
      }
    }
  }

  /** Reading the `_` of `column_<digits>` as a space gives `column <digits>`. */
  lemma {:induction false} SpacedColumnName(d: string)
    requires forall i :: 0 <= i < |d| ==> '0' <= d[i] <= '9'
    ensures ReplaceChar("column_" + d, '_', ' ') == "column " + d
  {
    ReplaceCharConcat("column_", d, '_', ' ');
    ReplaceCharAbsent(d, '_', ' ');
    assert ReplaceChar("column_", '_', ' ') == "column ";
  }

  /** Letters, digits and single spaces are left as they are by the substitution. */
  lemma {:induction false} SubAlnumSpacedFixed(s: string)
    requires AlnumSpaced(s)
    ensures SubNonAlnum(s) == s
    decreases |s|
  {
    if s != [] {
      var t := s[1..];
      AlnumSpacedSlice(s, 1, |s|);
      SubAlnumSpacedFixed(t);
      if s[0] == ' ' {
        assert |s| > 1 ==> s[1] != ' ' && IsAsciiAlnum(s[1]);
        assert LeadingNonAlnum(s) == 1;
      }
    }
  }

  lemma {:induction false} AttendanceHeadersNormalized(cells: Row)
    ensures forall h :: h in AttendanceHeaders(cells) ==> IsNormalizedName(h)
    decreases |cells|
  {
    if cells != [] {
      var n := |cells| - 1;
      AttendanceHeadersNormalized(cells[..n]);
      AttendanceHeaderShape(cells[n].text, n);
    }
  }

  /** The normalised names of all cells of the header row. */
  function AttendanceHeaders(cells: Row): (hs: seq<string>)
    ensures |hs| == |cells|
    decreases |cells|
  {
    if cells == [] then []
    else
      var n := |cells| - 1;
      AttendanceHeaders(cells[..n]) + [AttendanceHeader(cells[n].text, n)]
  }

  /** `f"row_{idx}"`. */
  function RowKey(idx: nat): string {
    "row_" + NatToString(idx)
  }

  /** The field whose value keys a row: the first header, or `row` when there is none. */
  function KeyColumn(headers: seq<string>): string {
    if headers != [] then headers[0] else "row"
  }

  /** The record `parse_attendance` builds from body row `idx` (1-based). */
  function AttendanceRecord(headers: seq<string>, values: seq<string>, idx: nat): Record {
    var n := Min(|headers|, |values|);
    var record := IndexBy(headers[..n], values[..n]);
    var keyValue := Get(record, KeyColumn(headers), RowKey(idx));
    SetDefault(record, Changes.KeyField, if keyValue == [] then RowKey(idx) else keyValue)
  }

  /** The records of the body rows; a row's number counts the rows without data cells too. */
  function AttendanceRows(headers: seq<string>, body: seq<Row>): (rs: seq<Record>)
    ensures |rs| <= |body|
  {
    if body == [] then []
    else
      var n := |body| - 1;
      var values := DataTexts(body[n]);
      AttendanceRows(headers, body[..n]) + if values != [] then [AttendanceRecord(headers, values, n + 1)] else []
  }

  /** `parse_attendance` on a table found (or not) in the page. */
  function ParseAttendanceSpec(table: Option<seq<Row>>): Parsed {
    match table
    case None => Failed(TableNotFound)
    case Some(rows) =>
      if |rows| < 2 then Failed(EmptyTable)
      else
        var records := AttendanceRows(AttendanceHeaders(rows[0]), rows[1..]);
        if records == [] then Failed(NoRows) else Parsed(records)
  }

  /** `for index, cell in enumerate(header_cells)`: the loop that names the columns. */
  method NameColumns(cells: Row) returns (normalized: seq<string>)
    ensures normalized == AttendanceHeaders(cells)
  {
    normalized := [];
    var index := 0;
    while index < |cells|
      invariant index <= |cells|
      invariant normalized == AttendanceHeaders(cells[..index])
    {
      var normalizedValue := NameColumn(cells[index].text, index);
      AttendanceHeadersPrefix(cells, index);
      normalized := normalized + [normalizedValue];
      index := index + 1;
    }
    assert cells[..index] == cells;
  }

  lemma AttendanceHeadersPrefix(cells: Row, index: nat)
    requires index < |cells|
    ensures AttendanceHeaders(cells[..index + 1]) == AttendanceHeaders(cells[..index]) + [AttendanceHeader(cells[index].text, index)]
  {
    assert cells[..index + 1][..index] == cells[..index];
  }

  /** One pass of the header loop: the name of column `index` (0-based). */
  method NameColumn(text: string, index: nat) returns (normalizedValue: string)
    ensures normalizedValue == AttendanceHeader(text, index)
  {
    var headerText := CleanText(text);
    if headerText == [] {
      headerText := "Column " + NatToString(index + 1);
    }
    normalizedValue := NormalizeHeader(headerText);
    if normalizedValue == "column" {
      normalizedValue := ColumnName(index + 1);
    }
  }

  /** The loop over `zip(headers, normalized_headers, cells)` and the `_key` it sets. */
  method BuildAttendanceRecord(headers: seq<string>, values: seq<string>, idx: nat) returns (record: Record)
    ensures record == AttendanceRecord(headers, values, idx)
  {
    var n := Min(|headers|, |values|);
    record := ZipColumns(headers[..n], values[..n]);
    var keyField := if |headers| > 0 then headers[0] else "row";
    var keyValue := Get(record, keyField, RowKey(idx));
    record := SetDefault(record, Changes.KeyField, if keyValue == [] then RowKey(idx) else keyValue);
  }

  /** `record[name] = value` for each column in turn. */
  method ZipColumns(names: seq<string>, values: seq<string>) returns (record: Record)
    requires |names| == |values|
    ensures record == IndexBy(names, values)
  {
    record := Empty();
    var j := 0;
    while j < |names|
      invariant j <= |names|
      invariant record == IndexBy(names[..j], values[..j])
    {
      IndexByPrefix(names, values, j);
      record := Put(record, names[j], values[j]);
      j := j + 1;
    }
    assert names[..j] == names && values[..j] == values;
  }

  lemma AttendanceRowsPrefix(headers: seq<string>, body: seq<Row>, i: nat)
    requires i < |body|
    ensures var values := DataTexts(body[i]);
      AttendanceRows(headers, body[..i + 1])
        == AttendanceRows(headers, body[..i]) + if values != [] then [AttendanceRecord(headers, values, i + 1)] else []
  {
    var b := body[..i + 1];
    assert b[..i] == body[..i] && b[i] == body[i];
  }

  /** `for idx, row in enumerate(rows[1:], start=1)`: the loop that collects the records. */
  method CollectAttendanceRows(headers: seq<string>, body: seq<Row>) returns (records: seq<Record>)
    ensures records == AttendanceRows(headers, body)
  {
    records := [];
    var i := 0;
    while i < |body|
      invariant i <= |body|
      invariant records == AttendanceRows(headers, body[..i])
    {
      AttendanceRowsPrefix(headers, body, i);
      records := AppendAttendanceRow(records, headers, body[i], i + 1);
      i := i + 1;
    }
    assert body[..i] == body;
  }

  /** One pass of the row loop: the row's record, when it has data cells. */
  method AppendAttendanceRow(records: seq<Record>, headers: seq<string>, row: Row, idx: nat) returns (out: seq<Record>)
    ensures var values := DataTexts(row);
      out == records + if values != [] then [AttendanceRecord(headers, values, idx)] else []
  {
    var values := DataTexts(row);
    out := records;
    if values != [] {
      var record := BuildAttendanceRecord(headers, values, idx);
      out := out + [record];
    }
  }

  /** `parse_attendance`. */
  method ParseAttendance(table: Option<seq<Row>>) returns (p: Parsed)
    ensures p == ParseAttendanceSpec(table)
  {
    if table.None? {
      return Failed(TableNotFound);
    }
    var rows := table.value;
    if |rows| < 2 {
      return Failed(EmptyTable);
    }
    var normalized := NameColumns(rows[0]);
    var records := CollectAttendanceRows(normalized, rows[1..]);
    if records == [] {
      return Failed(NoRows);
    }
    return Parsed(records);
  }

  /** An attendance record: the zipped columns, last value winning for a
      repeated name, plus `_key`, which is the value stored under the first column's
      normalized name when that is non-empty and `row_<idx>` otherwise. */
  lemma AttendanceRecordContent(headers: seq<string>, values: seq<string>, idx: nat)
    requires forall h :: h in headers ==> IsNormalizedName(h)
    ensures var r := AttendanceRecord(headers, values, idx); var n := Min(|headers|, |values|);
      && Changes.KeyField in r.vals
      && (var v := Changes.Field(r, KeyColumn(headers)); Changes.Field(r, Changes.KeyField) == if v != [] then v else RowKey(idx))
      && (forall f :: f != Changes.KeyField ==> (f in r.vals <==> f in headers[..n]))
      && (forall f :: f != Changes.KeyField && f in headers[..n] ==> r.vals[f] == values[LastIndex(headers[..n], f)])
  {
    var n := Min(|headers|, |values|);
    var record := IndexBy(headers[..n], values[..n]);
    IndexByKeys(headers[..n], values[..n]);
    IndexByLastWins(headers[..n], values[..n]);
    assert Changes.KeyField[0] == '_';
    assert Changes.KeyField !in headers[..n] by {
      forall h | h in headers[..n] ensures h != Changes.KeyField {
        assert h in headers;
      }
    }
    assert KeyColumn(headers) != Changes.KeyField by {
      if headers != [] {
        assert headers[0] in headers;
      }
    }
  }

  /** The `_key` of an attendance record is either one of the row's values or `row_<idx>`. */
  lemma AttendanceKeySource(headers: seq<string>, values: seq<string>, idx: nat)
    requires Changes.KeyField !in headers
    ensures var r := AttendanceRecord(headers, values, idx); var k := Changes.Field(r, Changes.KeyField);
      Changes.KeyField in r.vals && (k == RowKey(idx) || (k != [] && k in values))
  {
    var n := Min(|headers|, |values|);
    var record := IndexBy(headers[..n], values[..n]);
    IndexByKeys(headers[..n], values[..n]);
    IndexByLastWins(headers[..n], values[..n]);
    assert Changes.KeyField !in headers[..n] by {
      forall h | h in headers[..n] ensures h != Changes.KeyField {
        assert h in headers;
      }
    }
    var c := KeyColumn(headers);
    if c in record.vals {
      var j := LastIndex(headers[..n], c);
      assert record.vals[c] == values[j] && values[j] in values;
    }
  }

  /** The `_key` of a parsed attendance row is never empty and has no surrounding whitespace. */
  lemma AttendanceRecordKey(headers: seq<string>, row: Row, idx: nat)
    requires Changes.KeyField !in headers
    ensures var r := AttendanceRecord(headers, DataTexts(row), idx); var k := Changes.Field(r, Changes.KeyField);
      Changes.KeyField in r.vals && k != [] && Strip(k) == k
  {
    var r := AttendanceRecord(headers, DataTexts(row), idx);
    var k := Changes.Field(r, Changes.KeyField);
    AttendanceKeySource(headers, DataTexts(row), idx);
    Changes.RowKeyStripped(idx);
    if k != RowKey(idx) {
      DataTextsClean(row);
      CleanStripped(k);
    }
  }

  lemma CleanStripped(v: string)
    requires v != [] && CleanText(v) == v
    ensures Strip(v) == v
  {
  }

  /** A normalized column name never starts with `_`, so no column can clash with `_key`. */
  lemma NoHeaderIsKey(headers: seq<string>)
    requires forall h :: h in headers ==> IsNormalizedName(h)
    ensures Changes.KeyField !in headers
  {
    assert Changes.KeyField[0] == '_';
  }

  /** Every collected attendance record carries a usable `_key`. */
  lemma {:induction false} AttendanceRowsKeyed(headers: seq<string>, body: seq<Row>)
    requires Changes.KeyField !in headers
    ensures forall r :: r in AttendanceRows(headers, body) ==>
      var k := Changes.Field(r, Changes.KeyField);
      Changes.KeyField in r.vals && k != [] && Strip(k) == k
    decreases |body|
  {
    if body != [] {
      var n := |body| - 1;
      AttendanceRowsKeyed(headers, body[..n]);
      AttendanceRecordKey(headers, body[n], n + 1);
    }
  }

  /** No attendance record is collected exactly when no body row has a data cell. */
  lemma {:induction false} AttendanceRowsEmptyIff(headers: seq<string>, body: seq<Row>)
    ensures AttendanceRows(headers, body) == [] <==> forall i :: 0 <= i < |body| ==> DataTexts(body[i]) == []
    decreases |body|
  {
    if body != [] {
      var n := |body| - 1;
      AttendanceRowsEmptyIff(headers, body[..n]);
      assert forall i :: 0 <= i < n ==> body[..n][i] == body[i];
    }
  }

  /** `parse_attendance` refuses a missing table, a table of fewer than two
      rows and a table whose body rows have no data cells; otherwise every
      record it returns is keyed by its `_key`, which is how
      `detect_attendance_changes` identifies it. */
  lemma ParseAttendanceOutcome(table: Option<seq<Row>>)
    ensures var p := ParseAttendanceSpec(table);
      && (p == Failed(TableNotFound) <==> table.None?)
      && (p == Failed(EmptyTable) <==> table.Some? && |table.value| < 2)
      && (p == Failed(NoRows) <==>
            table.Some? && |table.value| >= 2 && forall i :: 1 <= i < |table.value| ==> DataTexts(table.value[i]) == [])
      && (p.Parsed? ==> table.Some? && 1 <= |p.records| < |table.value|)
      && (p.Parsed? ==> forall i :: 0 <= i < |p.records| ==>
            Changes.KeyField in p.records[i].vals
            && Changes.RecordKey(p.records[i], i) == Changes.Field(p.records[i], Changes.KeyField))
  {
    if table.Some? && |table.value| >= 2 {
      var rows := table.value;
      var headers := AttendanceHeaders(rows[0]);
      var body := rows[1..];
      AttendanceHeadersNormalized(rows[0]);
      NoHeaderIsKey(headers);
      AttendanceRowsKeyed(headers, body);
      AttendanceRowsEmptyIff(headers, body);
      assert forall i :: 1 <= i < |rows| ==> rows[i] == body[i - 1];
      var recs := AttendanceRows(headers, body);
      forall i | 0 <= i < |recs|
        ensures Changes.RecordKey(recs[i], i) == Changes.Field(recs[i], Changes.KeyField)
      {
        assert recs[i] in recs;
      }
    }
  }
}
