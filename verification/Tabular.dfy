/** Building the preview table out of delimited records: unique column names, rows, malformed rows. */
module Tabular {
  import opened Decimals
  import opened Delimited
  import opened JsObjects
  import opened JsText
  import opened Sequences

  const MAX_ROWS: nat := 50_000
  const MAX_COLUMNS: nat := 512
  const MALFORMED_GRACE: nat := 2

  // ---------------------------------------------------------- column names

  function BaseName(header: Record, i: nat): string
    requires i < |header|
  {
    if Trim(header[i]) == "" then "column_" + Decimal(i + 1) else Trim(header[i])
  }

  /** The n-th spelling tried for a column: the base, then base_2, base_3, ... */
  function Spelling(base: string, n: nat): string {
    if n < 2 then base else base + "_" + Decimal(n)
  }

  lemma SpellingInjective(base: string, m: nat, n: nat)
    requires 1 <= m && 1 <= n && Spelling(base, m) == Spelling(base, n)
    ensures m == n
  {
    if m >= 2 && n >= 2 {
      assert Spelling(base, m)[|base| + 1..] == Decimal(m) && Spelling(base, n)[|base| + 1..] == Decimal(n);
      DecimalInjective(m, n);
    }
  }

  ghost predicate Distinct<T(!new)>(s: seq<T>) {
    forall i, j :: 0 <= i < j < |s| ==> s[i] != s[j]
  }

  /** Column i is the first spelling of its base that no earlier column took. */
  ghost predicate Named(header: Record, names: seq<string>, i: nat)
    requires i < |header| && i < |names|
  {
    exists n: nat {:trigger Spelling(BaseName(header, i), n)} ::
      && 1 <= n && names[i] == Spelling(BaseName(header, i), n)
      && forall m: nat {:trigger Spelling(BaseName(header, i), m)} ::
           1 <= m < n ==> Spelling(BaseName(header, i), m) in names[..i]
  }

  /** The suffix loop: it ends because the spellings are pairwise distinct and `used` is finite. */
  method FreeSpelling(base: string, used: set<string>) returns (name: string, n: nat)
    ensures n >= 1 && name == Spelling(base, n) && name !in used
    ensures forall m: nat {:trigger Spelling(base, m)} :: 1 <= m < n ==> Spelling(base, m) in used
  {
    name, n := base, 2;
    ghost var tried: set<string> := {};
    while name in used
      invariant n >= 2 && name == Spelling(base, n - 1) && tried <= used
      invariant forall s <- tried ::
            exists m: nat {:trigger Spelling(base, m)} :: 1 <= m < n - 1 && s == Spelling(base, m)
      invariant forall m: nat {:trigger Spelling(base, m)} :: 1 <= m < n - 1 ==> Spelling(base, m) in used
      decreases used - tried
    {
      if name in tried {
        var m: nat :| 1 <= m < n - 1 && name == Spelling(base, m);
        SpellingInjective(base, m, n - 1);
      }
      tried := tried + {name};
      name := base + "_" + Decimal(n);
      n := n + 1;
    }
    n := n - 1;
  }

  method UniqueColumnNames(header: Record) returns (out: seq<string>)
    ensures |out| == |header| && Distinct(out)
    ensures forall i :: 0 <= i < |out| ==> Named(header, out, i)
  {
    out := [];
    var used: set<string> := {};
    for i := 0 to |header|
      invariant |out| == i && Distinct(out)
      invariant used == set s <- out
      invariant forall j :: 0 <= j < i ==> Named(header, out, j)
    {
      var name, n := FreeSpelling(BaseName(header, i), used);
      ghost var before := out;
      used := used + {name};
      out := out + [name];
      assert before == out[..i];
      forall j | 0 <= j <= i ensures Named(header, out, j) {
        if j < i {
          assert Named(header, before, j) && before[..j] == out[..j];
        } else {
          assert name == Spelling(BaseName(header, i), n);
        }
      }
    }
  }

  // ------------------------------------------------------------------ rows

  /** A preview cell; a short record leaves its last columns missing. */
  datatype Cell = Missing | Field(text: string)

  type PreviewRow = Object<Cell>

  datatype ParseResult =
    | Preview(columns: seq<string>, rows: seq<PreviewRow>, malformed: nat, truncated: bool)
    | NoRows
    | TooManyColumns(columns_: nat)
    | RaggedRows

  predicate Blank(record: Record) {
    record == [] || record == [""]
  }

  function Filled(records: seq<Record>): (r: seq<Record>)
    ensures |r| <= |records|
  {
    if records == [] then []
    else Filled(records[..|records| - 1]) + if Blank(records[|records| - 1]) then [] else [records[|records| - 1]]
  }

  function Ragged(records: seq<Record>, width: nat): nat {
    if records == [] then 0
    else Ragged(records[..|records| - 1], width) + if |records[|records| - 1]| != width then 1 else 0
  }

  function CellAt(record: Record, j: nat): Cell {
    if j < |record| then Field(record[j]) else Missing
  }

  /** malformed / (malformed + kept) > 0.1, past the first two. */
  predicate TooManyMalformed(malformed: nat, kept: nat) {
    malformed > MALFORMED_GRACE && 10 * malformed > malformed + kept
  }

  /**
    The row of a record, column j holding field j or nothing. A column named __proto__ is not
    there: writing it meets the setter, which a missing field makes cut the prototype off.
  */
  ghost predicate RowShows(columns: seq<string>, record: Record, row: PreviewRow) {
    && row.own.Keys == (set c <- columns | c != PROTO)
    && (forall j :: 0 <= j < |columns| && columns[j] != PROTO ==> row.own[columns[j]] == CellAt(record, j))
    && (row.inherits <==> forall j :: 0 <= j < |columns| && columns[j] == PROTO ==> CellAt(record, j) != Missing)
  }

  /** Every column keeps its cell exactly when none is named __proto__. */
  lemma ColumnsAreKeptExactlyWhen(columns: seq<string>, record: Record, row: PreviewRow)
    requires RowShows(columns, record, row)
    ensures (forall j :: 0 <= j < |columns| ==> columns[j] in row.own && row.own[columns[j]] == CellAt(record, j))
            <==> PROTO !in columns
  {
  }

  /** Under the header `__proto__,a` the record `1,2` becomes a row of one column, and `1` is nowhere. */
  lemma ProtoColumnIsLost(row: PreviewRow)
    requires RowShows([PROTO, "a"], ["1", "2"], row)
    ensures row == Object(map["a" := Field("2")], true)
  {
    var columns := [PROTO, "a"];
    assert columns[1] == "a" && CellAt(["1", "2"], 1) == Field("2") && CellAt(["1", "2"], 0) == Field("1");
    assert row.own.Keys == {"a"};
  }

  function Take<T>(s: seq<T>, n: nat): seq<T> {
    if |s| <= n then s else s[..n]
  }

  /**
    What the preview of these records is. The first record that is not blank names the
    columns; the next MAX_ROWS records that are not blank become rows, in order.
  */
  ghost predicate Previews(records: seq<Record>, r: ParseResult) {
    var filled := Filled(records);
    if filled == [] then r == NoRows
    else if |filled[0]| > MAX_COLUMNS then r == TooManyColumns(|filled[0]|)
    else
      var kept := Take(filled[1..], MAX_ROWS);
      var malformed := Ragged(kept, |filled[0]|);
      if TooManyMalformed(malformed, |kept|) then r == RaggedRows
      else
        && r.Preview? && r.malformed == malformed && r.truncated == (|filled| - 1 > MAX_ROWS)
        && |r.columns| == |filled[0]| && Distinct(r.columns)
        && (forall i :: 0 <= i < |r.columns| ==> Named(filled[0], r.columns, i))
        && |r.rows| == |kept|
        && forall k :: 0 <= k < |kept| ==> RowShows(r.columns, kept[k], r.rows[k])
  }

  lemma FilledGrow(records: seq<Record>, i: nat)
    requires i < |records|
    ensures Filled(records[..i + 1]) == Filled(records[..i]) + if Blank(records[i]) then [] else [records[i]]
  {
    assert records[..i + 1][..i] == records[..i];
  }

  lemma {:induction false} FilledAppend(a: seq<Record>, b: seq<Record>)
    ensures Filled(a + b) == Filled(a) + Filled(b)
    decreases |b|
  {
    if b == [] {
      assert a + b == a;
    } else {
      var front := b[..|b| - 1];
      assert (a + b)[..|a + b| - 1] == a + front;
      FilledAppend(a, front);
    }
  }

  method RowOf(columns: seq<string>, record: Record) returns (row: PreviewRow)
    requires Distinct(columns)
    ensures RowShows(columns, record, row)
  {
    row := Object(map[], true);
    for j := 0 to |columns|
      invariant RowShows(columns[..j], record, row)
    {
      var cell := if j < |record| then Field(record[j]) else Missing;
      RowGrows(columns, record, row, j);
      row := Assign(row, columns[j], cell, cell.Missing?);
    }
    assert columns[..|columns|] == columns;
  }

  lemma RowGrows(columns: seq<string>, record: Record, row: PreviewRow, j: nat)
    requires Distinct(columns) && j < |columns| && RowShows(columns[..j], record, row)
    ensures RowShows(columns[..j + 1], record, Assign(row, columns[j], CellAt(record, j), CellAt(record, j).Missing?))
  {
    var more := columns[..j + 1];
    assert more == columns[..j] + [columns[j]] && columns[j] !in columns[..j];
    var after := Assign(row, columns[j], CellAt(record, j), CellAt(record, j).Missing?);
    if columns[j] == PROTO {
      assert PROTO !in columns[..j] && row.inherits;
    }
    forall i | 0 <= i < |more| && more[i] != PROTO ensures after.own[more[i]] == CellAt(record, i) {
      assert i < j ==> more[i] == columns[..j][i];
    }
  }

  method ParseDelimited(text: string, delimiter: char) returns (r: ParseResult)
    ensures Previews(Records(text, delimiter), r)
  {
    var records := SplitDelimitedRecords(text, delimiter);
    var h := 0;
    while h < |records| && Blank(records[h])
      invariant h <= |records| && Filled(records[..h]) == []
    {
      FilledGrow(records, h);
      h := h + 1;
    }
    if h == |records| {
      assert records[..h] == records;
      return NoRows;
    }
    var header := records[h];
    FilledGrow(records, h);
    HeaderLeads(records, h + 1, header, []);
    if |header| > MAX_COLUMNS { return TooManyColumns(|header|); }
    var columns := UniqueColumnNames(header);
    var rows, malformed, truncated;
    ghost var kept;
    rows, malformed, truncated, kept := FillRows(records, h + 1, header, columns);
    if TooManyMalformed(malformed, |rows|) { return RaggedRows; }
    return Preview(columns, rows, malformed, truncated);
  }

  /** Filled(records) opens with what the scanned prefix has kept. */
  lemma HeaderLeads(records: seq<Record>, i: nat, header: Record, kept: seq<Record>)
    requires i <= |records| && Filled(records[..i]) == [header] + kept
    ensures Filled(records) == [header] + kept + Filled(records[i..])
  {
    assert records == records[..i] + records[i..];
    FilledAppend(records[..i], records[i..]);
  }

  lemma {:induction false} FilledKeepsOne(records: seq<Record>)
    requires records != [] && !Blank(records[0])
    ensures Filled(records) != []
  {
    assert records == records[..1] + records[1..];
    FilledAppend(records[..1], records[1..]);
    FilledGrow(records, 0);
  }

  lemma KeptGrows(kept: seq<Record>, record: Record, before: seq<Record>, width: nat)
    ensures Ragged(kept + [record], width) == Ragged(kept, width) + if |record| != width then 1 else 0
    ensures before + kept + [record] == before + (kept + [record])
  {
    Snoc(kept, record);
  }

  method FillRows(records: seq<Record>, from: nat, header: Record, columns: seq<string>)
    returns (rows: seq<PreviewRow>, malformed: nat, truncated: bool, ghost kept: seq<Record>)
    requires from <= |records| && Filled(records[..from]) == [header] && Distinct(columns) && |columns| == |header|
    ensures Filled(records) != [] && kept == Take(Filled(records)[1..], MAX_ROWS) && |rows| == |kept|
    ensures malformed == Ragged(kept, |header|)
    ensures truncated == (|Filled(records)| - 1 > MAX_ROWS)
    ensures forall k :: 0 <= k < |kept| ==> RowShows(columns, kept[k], rows[k])
  {
    rows, malformed, truncated, kept := [], 0, false, [];
    assert [header] + kept == [header];
    var i := from;
    while i < |records|
      invariant from <= i <= |records| && Filled(records[..i]) == [header] + kept
      invariant |rows| == |kept| <= MAX_ROWS && !truncated && malformed == Ragged(kept, |header|)
      invariant forall k :: 0 <= k < |kept| ==> RowShows(columns, kept[k], rows[k])
    {
      var record := records[i];
      FilledGrow(records, i);
      if !Blank(record) {
        if |rows| >= MAX_ROWS {
          truncated := true;
          break;
        }
        if |record| != |columns| { malformed := malformed + 1; }
        var row := RowOf(columns, record);
        rows := rows + [row];
        KeptGrows(kept, record, [header], |header|);
        kept := kept + [record];
      }
      i := i + 1;
    }
    HeaderLeads(records, i, header, kept);
    var rest := Filled(records[i..]);
    if truncated { FilledKeepsOne(records[i..]); }
    assert Filled(records)[1..] == kept + rest;
  }

  // ------------------------------------------------- export, then preview

  /** Column names the preview has no reason to touch. */
  ghost predicate CleanHeader(header: Record) {
    Distinct(header) && forall h <- header :: Trim(h) == h != ""
  }

  lemma {:induction false} CleanHeaderIsKept(header: Record, names: seq<string>)
    requires CleanHeader(header) && |names| == |header|
    requires forall i :: 0 <= i < |names| ==> Named(header, names, i)
    ensures names == header
    decreases |header|
  {
    if header != [] {
      var last := |header| - 1;
      var fewer := header[..last];
      forall i | 0 <= i < last ensures Named(fewer, names[..last], i) {
        assert Named(header, names, i) && BaseName(fewer, i) == BaseName(header, i);
        assert names[..last][..i] == names[..i];
      }
      CleanHeaderIsKept(fewer, names[..last]);
      assert Named(header, names, last) && header[last] in header;
      assert Spelling(BaseName(header, last), 1) == header[last] && header[last] !in names[..last];
      var n: nat :| 1 <= n && names[last] == Spelling(BaseName(header, last), n)
                    && forall m: nat {:trigger Spelling(BaseName(header, last), m)} ::
                         1 <= m < n ==> Spelling(BaseName(header, last), m) in names[..last];
      assert names == names[..last] + [header[last]] && header == fewer + [header[last]];
    }
  }

  lemma {:induction false} WideTablesAreFilled(table: seq<Record>, width: nat)
    requires width >= 2 && forall r <- table :: |r| == width
    ensures Filled(table) == table && Ragged(table, width) == 0
  {
    if table != [] {
      var front, last := table[..|table| - 1], table[|table| - 1];
      assert last in table && forall r <- front :: r in table;
      WideTablesAreFilled(front, width);
      WideRecordIsKept(front, last, width);
      Unsnoc(table);
    }
  }

  lemma WideRecordIsKept(front: seq<Record>, last: Record, width: nat)
    requires width >= 2 && |last| == width && Filled(front) == front && Ragged(front, width) == 0
    ensures Filled(front + [last]) == front + [last] && Ragged(front + [last], width) == 0
  {
    Snoc(front, last);
  }

  /**
    End to end: a table of two or more cleanly named columns, exported and previewed again,
    shows every column, nothing malformed and nothing cut, whatever the cells contain; and a
    row shows a cell, with only the formula escape added, exactly when its column is not
    named __proto__.
  */
  lemma ExportPreviewsWhole(columns: seq<string>, rows: seq<Row>, r: ParseResult)
    requires 2 <= |columns| <= MAX_COLUMNS && |rows| <= MAX_ROWS
    requires CleanHeader(Header(columns)) && !BomLed(',', columns[0])
    requires Previews(Records(Print(',', Table(columns, rows)), ','), r)
    ensures r.Preview? && r.columns == Header(columns) && r.malformed == 0 && !r.truncated
    ensures |r.rows| == |rows|
    ensures forall k, j :: 0 <= k < |rows| && 0 <= j < |columns| ==>
      (ShowsCell(r.rows[k], r.columns[j], Escape(CsvValue(rows[k], columns[j]))) <==> columns[j] != PROTO)
  {
    var table := Table(columns, rows);
    ExportIsFilled(columns, rows);
    assert table[0] == Header(columns) && Take(table[1..], MAX_ROWS) == table[1..];
    CleanHeaderIsKept(Header(columns), r.columns);
    forall k, j | 0 <= k < |rows| && 0 <= j < |columns|
      ensures ShowsCell(r.rows[k], r.columns[j], Escape(CsvValue(rows[k], columns[j]))) <==> columns[j] != PROTO
    {
      assert table[1..][k] == RowRecord(columns, rows[k]);
      RowShowsItsCells(r.columns, RowRecord(columns, rows[k]), r.rows[k], j);
      EscapeKeepsProto(columns[j]);
    }
  }

  lemma RowShowsItsCells(columns: seq<string>, record: Record, row: PreviewRow, j: nat)
    requires RowShows(columns, record, row) && j < |columns| == |record|
    ensures ShowsCell(row, columns[j], record[j]) <==> columns[j] != PROTO
  {
  }

  lemma EscapeKeepsProto(name: string)
    ensures Escape(name) == PROTO <==> name == PROTO
  {
    assert Escape(name) != name ==> Escape(name)[0] == '\'';
  }

  /** The row holds this text under the column. */
  predicate ShowsCell(row: PreviewRow, column: string, text: string) {
    column in row.own && row.own[column] == Field(text)
  }

  lemma ExportIsFilled(columns: seq<string>, rows: seq<Row>)
    requires 2 <= |columns| && !BomLed(',', columns[0])
    ensures var table := Table(columns, rows);
            && Records(Print(',', table), ',') == table == Filled(table)
            && |table| == |rows| + 1 && Ragged(table[1..], |columns|) == 0
  {
    var table := Table(columns, rows);
    CsvRoundTrip(columns, rows);
    TableShape(columns, rows);
    WideTablesAreFilled(table, |columns|);
    assert forall x <- table[1..] :: x in table;
    WideTablesAreFilled(table[1..], |columns|);
  }
}
