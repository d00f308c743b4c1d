/**
  RFC 4180-style text: the record splitter and the CSV printer of the table preview.
  The splitter is a loop over characters; its meaning is the function Scan, which reads
  the same text from the front and is what the round trip is proved about.
*/
module Delimited {
  import opened JsText
  import Decimals
  import opened JsObjects
  import opened Sequences

  const BOM: char := '\U{FEFF}'

  type Record = seq<string>

  /** The variables the splitter carries from one character to the next. */
  datatype Cursor = Cursor(records: seq<Record>, record: Record, field: string, inQuotes: bool, started: bool) {
    function EndField(): Cursor {
      this.(record := record + [field], field := "", started := false)
    }

    function EndRecord(): Cursor {
      EndField().(records := records + [record + [field]], record := [])
    }

    function Push(ch: char): Cursor {
      this.(field := field + [ch])
    }
  }

  const START: Cursor := Cursor([], [], "", false, false)

  /** The cursor after reading `src` from `c`. */
  function Scan(src: string, delimiter: char, c: Cursor): Cursor
    decreases |src|
  {
    if src == "" then c else
      var ch := src[0];
      if c.inQuotes then
        if ch != '"' then Scan(src[1..], delimiter, c.Push(ch))
        else if |src| > 1 && src[1] == '"' then Scan(src[2..], delimiter, c.Push('"'))
        else Scan(src[1..], delimiter, c.(inQuotes := false))
      else if ch == '"' && !c.started then Scan(src[1..], delimiter, c.(inQuotes := true, started := true))
      else if ch == delimiter then Scan(src[1..], delimiter, c.EndField())
      else if ch == '\r' then
        Scan(if |src| > 1 && src[1] == '\n' then src[2..] else src[1..], delimiter, c.EndRecord())
      else if ch == '\n' then Scan(src[1..], delimiter, c.EndRecord())
      else Scan(src[1..], delimiter, c.Push(ch).(started := true))
  }

  /** The records once the input ends: an unterminated last row counts, a trailing newline adds none. */
  function Flush(c: Cursor): seq<Record> {
    if c.field != "" || c.record != [] || c.inQuotes then c.EndRecord().records else c.records
  }

  function StripBom(text: string): string {
    if text != "" && text[0] == BOM then text[1..] else text
  }

  function Records(text: string, delimiter: char): seq<Record> {
    Flush(Scan(StripBom(text), delimiter, START))
  }

  method SplitDelimitedRecords(text: string, delimiter: char) returns (records: seq<Record>)
    ensures records == Records(text, delimiter)
  {
    var src := StripBom(text);
    records := [];
    var record: Record := [];
    var field, inQuotes, started := "", false, false;
    var i := 0;
    while i < |src|
      invariant 0 <= i <= |src|
      invariant Scan(src[i..], delimiter, Cursor(records, record, field, inQuotes, started)) ==
                Scan(src, delimiter, START)
    {
      var ch := src[i];
      assert src[i..][0] == ch && src[i..][1..] == src[i + 1..];
      assert |src[i..]| > 1 ==> src[i..][1] == src[i + 1] && src[i..][2..] == src[i + 2..];
      if inQuotes {
        if ch == '"' {
          if i + 1 < |src| && src[i + 1] == '"' {
            field := field + ['"'];
            i := i + 1;
          } else {
            inQuotes := false;
          }
        } else {
          field := field + [ch];
        }
      } else if ch == '"' && !started {
        inQuotes, started := true, true;
      } else if ch == delimiter {
        record, field, started := record + [field], "", false;
      } else if ch == '\r' {
        records, record, field, started := records + [record + [field]], [], "", false;
        if i + 1 < |src| && src[i + 1] == '\n' {
          i := i + 1;
        }
      } else if ch == '\n' {
        records, record, field, started := records + [record + [field]], [], "", false;
      } else {
        field, started := field + [ch], true;
      }
      i := i + 1;
    }
    assert src[i..] == "";
    if field != "" || record != [] || inQuotes {
      records := records + [record + [field]];
    }
  }

  // ---------------------------------------------------------------- printing

  /** A cell as the table holds it: SQL null, text, or anything JSON.stringify or String renders. */
  datatype Value = Null | Text(text: string) | Rendered(text: string)

  type Row = Object<Value>

  /** What the row itself holds for a column, as text. */
  function OwnValue(row: Row, column: string): string {
    if column in row.own && !row.own[column].Null? then row.own[column].text else ""
  }

  /** csvValue(row[column]): the lookup is not confined to the row's own columns. */
  function CsvValue(row: Row, column: string): string {
    if Leaks(row, column) then InheritedText(column) else OwnValue(row, column)
  }

  /** [+-]?(\d+\.?\d*|\.\d+)(e[+-]?\d+)? over the whole string, ignoring case. */
  predicate PlainNumber(s: string) {
    var i := if s != "" && s[0] in "+-" then 1 else 0;
    var whole := Decimals.SkipDigits(s, i);
    var dot := if whole < |s| && s[whole] == '.' then whole + 1 else whole;
    var mantissa := Decimals.SkipDigits(s, dot);
    && (whole > i || mantissa > dot > whole)
    && (mantissa == |s| || (s[mantissa] in "eE" &&
          var sign := if mantissa + 1 < |s| && s[mantissa + 1] in "+-" then mantissa + 2 else mantissa + 1;
          sign < |s| && Decimals.SkipDigits(s, sign) == |s|))
  }

  predicate NeedsFormulaEscape(value: string) {
    value != "" && value[0] in "=+-@\t\r" && !(value[0] in "+-" && PlainNumber(value))
  }

  /** The text a field carries: a spreadsheet formula is neutralised by a leading apostrophe. */
  function Escape(value: string): string {
    if NeedsFormulaEscape(value) then "'" + value else value
  }

  /** A delimiter that no other branch of the splitter takes. */
  predicate Separates(d: char) {
    d != '"' && d != '\r' && d != '\n'
  }

  /** Printing with delimiter d; toCsv prints with a comma. */
  predicate NeedsQuotes(d: char, s: string) {
    '"' in s || '\n' in s || '\r' in s || d in s
  }

  function Doubled(s: string): string {
    if s == "" then "" else (if s[0] == '"' then "\"\"" else [s[0]]) + Doubled(s[1..])
  }

  function Quote(d: char, s: string): string {
    if NeedsQuotes(d, s) then "\"" + Doubled(s) + "\"" else s
  }

  function Header(columns: seq<string>): Record {
    seq(|columns|, i requires 0 <= i < |columns| => Escape(columns[i]))
  }

  function RowRecord(columns: seq<string>, row: Row): Record {
    seq(|columns|, i requires 0 <= i < |columns| => Escape(CsvValue(row, columns[i])))
  }

  /** The records the printer is asked to write, formula escape applied: the header, then the rows. */
  function Table(columns: seq<string>, rows: seq<Row>): seq<Record> {
    [Header(columns)] + seq(|rows|, k requires 0 <= k < |rows| => RowRecord(columns, rows[k]))
  }

  function Quoted(d: char, record: Record): seq<string> {
    seq(|record|, i requires 0 <= i < |record| => Quote(d, record[i]))
  }

  function Line(d: char, record: Record): string {
    Join(Quoted(d, record), [d])
  }

  function Print(d: char, table: seq<Record>): string {
    Join(seq(|table|, k requires 0 <= k < |table| => Line(d, table[k])), "\n")
  }

  method ToCsv(columns: seq<string>, rows: seq<Row>) returns (csv: string)
    ensures csv == Print(',', Table(columns, rows))
  {
    var lines := [Line(',', Header(columns))];
    for i := 0 to |rows|
      invariant |lines| == i + 1 && lines[0] == Line(',', Header(columns))
      invariant forall k :: 0 <= k < i ==> lines[k + 1] == Line(',', RowRecord(columns, rows[k]))
    {
      lines := lines + [Line(',', RowRecord(columns, rows[i]))];
    }
    csv := Join(lines, "\n");
    ghost var table := Table(columns, rows);
    assert lines == seq(|table|, k requires 0 <= k < |table| => Line(',', table[k]));
  }

  // -------------------------------------------------------- the round trip

  /** Between fields: nothing of the next field has been read. */
  predicate Fresh(c: Cursor) {
    c.field == "" && !c.inQuotes && !c.started
  }

  lemma {:induction false} PlainScan(d: char, f: string, rest: string, c: Cursor)
    requires Separates(d) && !NeedsQuotes(d, f) && !c.inQuotes
    ensures Scan(f + rest, d, c) == Scan(rest, d, c.(field := c.field + f, started := c.started || f != ""))
    decreases |f|
  {
    if f == "" {
      assert f + rest == rest && c.field + f == c.field;
    } else {
      var c' := c.Push(f[0]).(started := true);
      assert (f + rest)[1..] == f[1..] + rest;
      PlainScan(d, f[1..], rest, c');
      assert c'.field + f[1..] == c.field + f;
    }
  }

  lemma {:induction false} QuotedScan(d: char, f: string, rest: string, c: Cursor)
    requires Separates(d) && c.inQuotes && (rest == "" || rest[0] != '"')
    ensures Scan(Doubled(f) + "\"" + rest, d, c) == Scan(rest, d, c.(field := c.field + f, inQuotes := false))
    decreases |f|
  {
    var src := Doubled(f) + "\"" + rest;
    if f == "" {
      assert src[1..] == rest;
      assert c.field + f == c.field;
    } else {
      var tail := Doubled(f[1..]) + "\"" + rest;
      var c' := c.Push(f[0]);
      assert src == (if f[0] == '"' then "\"\"" else [f[0]]) + tail;
      assert Scan(src, d, c) == Scan(tail, d, c') by {
        if f[0] == '"' { assert src[2..] == tail; } else { assert src[1..] == tail; }
      }
      QuotedScan(d, f[1..], rest, c');
      assert c'.field + f[1..] == c.field + f;
    }
  }

  /** A printed field, up to its separator, reads back as the field. */
  lemma FieldScan(d: char, f: string, rest: string, c: Cursor)
    requires Separates(d) && Fresh(c) && (rest == "" || rest[0] == d || rest[0] == '\n')
    ensures Scan(Quote(d, f) + rest, d, c) == Scan(rest, d, c.(field := f, started := f != ""))
  {
    assert c.field + f == f;
    if NeedsQuotes(d, f) {
      var body := Doubled(f) + "\"" + rest;
      assert Quote(d, f) + rest == "\"" + body;
      assert (Quote(d, f) + rest)[1..] == body;
      QuotedScan(d, f, rest, c.(inQuotes := true, started := true));
    } else {
      PlainScan(d, f, rest, c);
    }
  }

  lemma LineCons(d: char, record: Record)
    requires |record| > 1
    ensures Line(d, record) == Quote(d, record[0]) + [d] + Line(d, record[1..])
  {
    assert Quoted(d, record)[1..] == Quoted(d, record[1..]);
  }

  /** The cursor with the record's last field read and the others kept. */
  function AtEnd(c: Cursor, record: Record): Cursor
    requires record != []
  {
    var last := record[|record| - 1];
    c.(record := c.record + record[..|record| - 1], field := last, started := last != "")
  }

  lemma DelimiterScan(d: char, tail: string, c: Cursor)
    requires Separates(d) && !c.inQuotes
    ensures Scan([d] + tail, d, c) == Scan(tail, d, c.EndField())
  {
    Cons(d, tail);
  }

  lemma AtEndCons(c: Cursor, record: Record)
    requires |record| > 1
    ensures AtEnd(c.(record := c.record + [record[0]]), record[1..]) == AtEnd(c, record)
  {
    assert record[..|record| - 1] == [record[0]] + record[1..][..|record| - 2];
    Assoc(c.record, [record[0]], record[1..][..|record| - 2]);
  }

  /** The first of several fields, and its comma. */
  lemma FirstFieldScan(d: char, record: Record, rest: string, c: Cursor)
    requires Separates(d) && |record| > 1 && Fresh(c)
    ensures Scan(Line(d, record) + rest, d, c) ==
            Scan(Line(d, record[1..]) + rest, d, c.(record := c.record + [record[0]]))
  {
    var tail := Line(d, record[1..]) + rest;
    LineCons(d, record);
    Assoc(Quote(d, record[0]) + [d], Line(d, record[1..]), rest);
    Assoc(Quote(d, record[0]), [d], tail);
    FieldScan(d, record[0], [d] + tail, c);
    DelimiterScan(d, tail, c.(field := record[0], started := record[0] != ""));
  }

  lemma LastFieldScan(d: char, record: Record, rest: string, c: Cursor)
    requires Separates(d) && |record| == 1 && Fresh(c) && (rest == "" || rest[0] == '\n')
    ensures Scan(Line(d, record) + rest, d, c) == Scan(rest, d, AtEnd(c, record))
  {
    FieldScan(d, record[0], rest, c);
    assert c.record + record[..0] == c.record;
  }

  lemma {:induction false} LineScan(d: char, record: Record, rest: string, c: Cursor)
    requires Separates(d) && record != [] && Fresh(c) && (rest == "" || rest[0] == '\n')
    ensures Scan(Line(d, record) + rest, d, c) == Scan(rest, d, AtEnd(c, record))
    decreases |record|
  {
    if |record| == 1 {
      LastFieldScan(d, record, rest, c);
    } else {
      FirstFieldScan(d, record, rest, c);
      LineScan(d, record[1..], rest, c.(record := c.record + [record[0]]));
      AtEndCons(c, record);
    }
  }

  /** What the splitter makes of a printed table: all of it, except a last record that is one empty field. */
  function Kept(table: seq<Record>): seq<Record>
    requires table != []
  {
    if table[|table| - 1] == [""] then table[..|table| - 1] else table
  }

  lemma PrintOne(d: char, table: seq<Record>)
    requires |table| == 1
    ensures Print(d, table) == Line(d, table[0])
  {
  }

  lemma PrintCons(d: char, table: seq<Record>)
    requires |table| > 1
    ensures Print(d, table) == Line(d, table[0]) + "\n" + Print(d, table[1..])
  {
    var lines := seq(|table|, k requires 0 <= k < |table| => Line(d, table[k]));
    assert lines[1..] == seq(|table[1..]|, k requires 0 <= k < |table[1..]| => Line(d, table[1..][k]));
  }

  lemma KeptOne(table: seq<Record>, records: seq<Record>)
    requires |table| == 1
    ensures records + Kept(table) == if table[0] == [""] then records else records + [table[0]]
  {
    assert table[..0] == [] && table == [table[0]];
  }

  lemma KeptCons(table: seq<Record>, records: seq<Record>)
    requires |table| > 1
    ensures records + [table[0]] + Kept(table[1..]) == records + Kept(table)
  {
    assert table == [table[0]] + table[1..];
    assert table[..|table| - 1] == [table[0]] + table[1..][..|table| - 2];
  }

  /** The cursor after a printed line and its newline. */
  lemma LineThenNewline(d: char, record: Record, rest: string, c: Cursor)
    requires Separates(d) && record != [] && Fresh(c) && c.record == []
    ensures Scan(Line(d, record) + ("\n" + rest), d, c)
            == Scan(rest, d, Cursor(c.records + [record], [], "", false, false))
  {
    LineScan(d, record, "\n" + rest, c);
    NewlineScan(d, rest, AtEnd(c, record));
    EndsAtEnd(c, record);
  }

  lemma NewlineScan(d: char, rest: string, c: Cursor)
    requires Separates(d) && !c.inQuotes
    ensures Scan("\n" + rest, d, c) == Scan(rest, d, c.EndRecord())
  {
    Cons('\n', rest);
  }

  lemma EndsAtEnd(c: Cursor, record: Record)
    requires record != [] && Fresh(c) && c.record == []
    ensures AtEnd(c, record).EndRecord() == Cursor(c.records + [record], [], "", false, false)
    ensures AtEnd(c, record).record + [AtEnd(c, record).field] == record
  {
    Unsnoc(record);
    assert [] + record[..|record| - 1] == record[..|record| - 1];
  }

  /** The records after a printed line that nothing follows. */
  lemma LastLine(d: char, record: Record, c: Cursor)
    requires Separates(d) && record != [] && Fresh(c) && c.record == []
    ensures Flush(Scan(Line(d, record), d, c)) == if record == [""] then c.records else c.records + [record]
  {
    assert Line(d, record) + "" == Line(d, record);
    LineScan(d, record, "", c);
    EndsAtEnd(c, record);
    LeavesSomething(c, record);
  }

  lemma LeavesSomething(c: Cursor, record: Record)
    requires record != [] && Fresh(c) && c.record == []
    ensures record == [""] <==> AtEnd(c, record).field == "" && AtEnd(c, record).record == []
  {
    Unsnoc(record);
  }

  lemma {:induction false} TableScan(d: char, table: seq<Record>, c: Cursor)
    requires Separates(d) && table != [] && forall r <- table :: r != []
    requires Fresh(c) && c.record == []
    ensures Flush(Scan(Print(d, table), d, c)) == c.records + Kept(table)
    decreases |table|
  {
    var record := table[0];
    assert record in table;
    if |table| == 1 {
      PrintOne(d, table);
      LastLine(d, record, c);
      KeptOne(table, c.records);
    } else {
      assert forall r <- table[1..] :: r in table;
      PrintCons(d, table);
      Assoc(Line(d, record), "\n", Print(d, table[1..]));
      LineThenNewline(d, record, Print(d, table[1..]), c);
      TableScan(d, table[1..], Cursor(c.records + [record], [], "", false, false));
      KeptCons(table, c.records);
    }
  }

  /** The printed field begins with a byte order mark. */
  predicate BomLed(d: char, field: string) {
    field != "" && field[0] == BOM && !NeedsQuotes(d, field)
  }

  /** The printed text begins with one, which the splitter will strip. */
  predicate OpensWithBom(d: char, record: Record)
    requires record != []
  {
    BomLed(d, record[0]) || (d == BOM && record[0] == "" && |record| > 1)
  }

  lemma LineSplits(d: char, record: Record)
    requires record != []
    ensures Line(d, record) == Quote(d, record[0]) + if |record| > 1 then [d] + Line(d, record[1..]) else ""
  {
    if |record| > 1 {
      LineCons(d, record);
      Assoc(Quote(d, record[0]), [d], Line(d, record[1..]));
    }
  }

  lemma PrintSplits(d: char, table: seq<Record>)
    requires table != [] && table[0] != []
    ensures Print(d, table) == Quote(d, table[0][0]) + AfterFirst(d, table)
    ensures AfterFirst(d, table) == "" || AfterFirst(d, table)[0] == d || AfterFirst(d, table)[0] == '\n'
  {
    LineSplits(d, table[0]);
    if |table| > 1 {
      PrintCons(d, table);
      Assoc(Line(d, table[0]), "\n", Print(d, table[1..]));
      Assoc(Quote(d, table[0][0]), if |table[0]| > 1 then [d] + Line(d, table[0][1..]) else "",
            "\n" + Print(d, table[1..]));
    } else {
      PrintOne(d, table);
    }
  }

  /** Everything printed after the very first field. */
  function AfterFirst(d: char, table: seq<Record>): string
    requires table != [] && table[0] != []
  {
    (if |table[0]| > 1 then [d] + Line(d, table[0][1..]) else "")
    + if |table| > 1 then "\n" + Print(d, table[1..]) else ""
  }

  /**
    Exactly which tables come back, for every delimiter but a quote and the line ends: with at
    least one field to a record, reading the printed text yields the very records unless it
    opens with a byte order mark or its last record is a single empty field.
  */
  lemma PrintedTableReadsBack(d: char, table: seq<Record>)
    requires Separates(d) && table != [] && table[0] != [] && forall r <- table :: r != []
    ensures Records(Print(d, table), d) == table <==> !OpensWithBom(d, table[0]) && table[|table| - 1] != [""]
  {
    if BomLed(d, table[0][0]) {
      BomIsLost(d, table);
    } else if OpensWithBom(d, table[0]) {
      BomDelimiterIsLost(table);
    } else {
      PrintedTableReads(d, table);
    }
  }

  lemma PrintedTableReads(d: char, table: seq<Record>)
    requires Separates(d) && table != [] && table[0] != [] && forall r <- table :: r != []
    requires !OpensWithBom(d, table[0])
    ensures Records(Print(d, table), d) == Kept(table)
  {
    PrintSplits(d, table);
    var f := table[0][0];
    assert Quote(d, f) == "" || Quote(d, f)[0] == f[0] || Quote(d, f)[0] == '"';
    assert StripBom(Print(d, table)) == Print(d, table);
    TableScan(d, table, START);
  }

  lemma BomLedText(d: char, table: seq<Record>)
    requires table != [] && table[0] != [] && (forall r <- table :: r != []) && BomLed(d, table[0][0])
    ensures var bare := table[0 := table[0][0 := table[0][0][1..]]];
            && (forall r <- bare :: r != [])
            && Print(d, table) != "" && Print(d, table)[0] == BOM && Print(d, table)[1..] == Print(d, bare)
  {
    var f := table[0][0];
    var bare := table[0 := table[0][0 := f[1..]]];
    BareTable(d, table, f[1..]);
    PrintSplits(d, table);
    PrintSplits(d, bare);
    assert Quote(d, f) == f && Quote(d, f[1..]) == f[1..];
  }

  /** A leading byte order mark is stripped, so the first field comes back one character short. */
  lemma BomIsLost(d: char, table: seq<Record>)
    requires Separates(d) && table != [] && table[0] != [] && forall r <- table :: r != []
    requires BomLed(d, table[0][0])
    ensures var back := Records(Print(d, table), d);
            back == [] || back[0] == table[0][0 := table[0][0][1..]] != table[0]
  {
    var f := table[0][0];
    var bare := table[0 := table[0][0 := f[1..]]];
    BomLedText(d, table);
    TableScan(d, bare, START);
    assert |bare[0][0]| != |f|;
  }

  /** Where the delimiter itself is a byte order mark, an empty first field is lost with it. */
  lemma BomDelimiterIsLost(table: seq<Record>)
    requires table != [] && table[0] != [] && forall r <- table :: r != []
    requires |table[0]| > 1 && table[0][0] == ""
    ensures var back := Records(Print(BOM, table), BOM); back == [] || back[0] == table[0][1..]
  {
    var bare := table[0 := table[0][1..]];
    assert bare[1..] == table[1..];
    forall k | 0 <= k < |bare| ensures bare[k] != [] {
      assert k > 0 ==> bare[k] == table[k] && table[k] in table;
    }
    PrintSplits(BOM, table);
    LineSplits(BOM, bare[0]);
    PrintSplits(BOM, bare);
    assert Print(BOM, table) == [BOM] + Print(BOM, bare);
    TableScan(BOM, bare, START);
    assert Records(Print(BOM, table), BOM) == Kept(bare);
  }

  /** The table with another first field. */
  lemma BareTable(d: char, table: seq<Record>, field: string)
    requires table != [] && table[0] != [] && forall r <- table :: r != []
    ensures var bare := table[0 := table[0][0 := field]];
            && (forall r <- bare :: r != []) && bare[0] != [] && bare[0][0] == field
            && AfterFirst(d, bare) == AfterFirst(d, table)
  {
    var bare := table[0 := table[0][0 := field]];
    assert bare[0][1..] == table[0][1..] && bare[1..] == table[1..];
    forall k | 0 <= k < |bare| ensures bare[k] != [] {
      assert k > 0 ==> bare[k] == table[k] && table[k] in table;
    }
  }

  lemma {:induction false} RecordsHaveFields(src: string, delimiter: char, c: Cursor)
    requires forall r <- c.records :: r != []
    ensures forall r <- Scan(src, delimiter, c).records :: r != []
    decreases |src|
  {
    if src != "" {
      var ch := src[0];
      if c.inQuotes {
        RecordsHaveFields(src[1..], delimiter, c.Push(ch));
        RecordsHaveFields(src[1..], delimiter, c.(inQuotes := false));
        if |src| > 1 { RecordsHaveFields(src[2..], delimiter, c.Push('"')); }
      } else {
        RecordsHaveFields(src[1..], delimiter, c.(inQuotes := true, started := true));
        RecordsHaveFields(src[1..], delimiter, c.EndField());
        RecordsHaveFields(src[1..], delimiter, c.EndRecord());
        if |src| > 1 { RecordsHaveFields(src[2..], delimiter, c.EndRecord()); }
        RecordsHaveFields(src[1..], delimiter, c.Push(ch).(started := true));
      }
    }
  }

  /** The last cell of a one-column table. */
  function LastValue(columns: seq<string>, rows: seq<Row>): string
    requires columns != []
  {
    if rows == [] then columns[0] else CsvValue(rows[|rows| - 1], columns[0])
  }

  /** What a caller of the export can check beforehand. */
  predicate ComesBack(columns: seq<string>, rows: seq<Row>) {
    && columns != []
    && !BomLed(',', columns[0])
    && !(|columns| == 1 && LastValue(columns, rows) == "")
  }

  lemma TableShape(columns: seq<string>, rows: seq<Row>)
    ensures forall r <- Table(columns, rows) :: |r| == |columns|
    ensures columns != [] ==>
      var last := Table(columns, rows)[|rows|];
      last[0] == Escape(LastValue(columns, rows))
  {
    var table := Table(columns, rows);
    assert table[0] == Header(columns);
    assert forall k :: 0 < k < |table| ==> table[k] == RowRecord(columns, rows[k - 1]);
  }

  lemma LastRecord(columns: seq<string>, rows: seq<Row>)
    requires columns != []
    ensures var table := Table(columns, rows);
            && table[0] == Header(columns) && (forall r <- table :: r != [])
            && BomLed(',', table[0][0]) == BomLed(',', columns[0])
            && (table[|table| - 1] == [""] <==> |columns| == 1 && LastValue(columns, rows) == "")
  {
    TableShape(columns, rows);
    var table := Table(columns, rows);
    var last := table[|rows|];
    assert last in table && last[0] == Escape(LastValue(columns, rows));
    OneFieldIs(last);
    EscapeKeepsBom(columns[0]);
  }

  lemma OneFieldIs(record: Record)
    requires record != []
    ensures record == [""] <==> |record| == 1 && record[0] == ""
  {
  }

  lemma EscapeKeepsBom(value: string)
    ensures BomLed(',', Escape(value)) == BomLed(',', value)
  {
  }

  lemma NoColumnsNoRoundTrip(rows: seq<Row>)
    ensures var back := Records(Print(',', Table([], rows)), ','); back == [] || back[0] != []
  {
    RecordsHaveFields(StripBom(Print(',', Table([], rows))), ',', START);
    var back := Records(Print(',', Table([], rows)), ',');
    assert |back| > 0 ==> back[0] in back;
  }

  /**
    The export round trip, for every table: re-reading the CSV gives the header and the rows,
    with only the formula escape added, if and only if ComesBack. Quotes, commas, CR and LF
    inside cells are all covered.
  */
  lemma CsvRoundTrip(columns: seq<string>, rows: seq<Row>)
    ensures Records(Print(',', Table(columns, rows)), ',') == Table(columns, rows) <==> ComesBack(columns, rows)
  {
    if columns == [] {
      NoColumnsNoRoundTrip(rows);
      assert Table(columns, rows)[0] == Header(columns) == [];
    } else {
      LastRecord(columns, rows);
      PrintedTableReadsBack(',', Table(columns, rows));
    }
  }

  /** The same table, told by what the rows themselves hold. */
  function OwnRecord(columns: seq<string>, row: Row): Record {
    seq(|columns|, i requires 0 <= i < |columns| => Escape(OwnValue(row, columns[i])))
  }

  function OwnTable(columns: seq<string>, rows: seq<Row>): seq<Record> {
    [Header(columns)] + seq(|rows|, k requires 0 <= k < |rows| => OwnRecord(columns, rows[k]))
  }

  /** A cell is printed as the row holds it unless the prototype answers for it. */
  lemma PrintsItsOwnExactlyWhen(row: Row, column: string)
    ensures Escape(CsvValue(row, column)) == Escape(OwnValue(row, column)) <==> !Leaks(row, column)
  {
    if Leaks(row, column) {
      assert InheritedText(column) != "" && InheritedText(column)[0] !in "=+-@\t\r";
    }
  }

  lemma OwnTableExactlyWhen(columns: seq<string>, rows: seq<Row>)
    ensures Table(columns, rows) == OwnTable(columns, rows) <==> NothingLeaks(columns, rows)
  {
    var table, own := Table(columns, rows), OwnTable(columns, rows);
    assert table[1..] == seq(|rows|, k requires 0 <= k < |rows| => RowRecord(columns, rows[k]));
    assert own[1..] == seq(|rows|, k requires 0 <= k < |rows| => OwnRecord(columns, rows[k]));
    forall k | 0 <= k < |rows|
      ensures table[1..][k] == own[1..][k] <==> forall column <- columns :: !Leaks(rows[k], column)
    {
      OwnRecordExactlyWhen(columns, rows[k]);
    }
    Uncons(table);
    Uncons(own);
  }

  lemma OwnRecordExactlyWhen(columns: seq<string>, row: Row)
    ensures RowRecord(columns, row) == OwnRecord(columns, row) <==> forall column <- columns :: !Leaks(row, column)
  {
    forall i | 0 <= i < |columns|
      ensures RowRecord(columns, row)[i] == OwnRecord(columns, row)[i] <==> !Leaks(row, columns[i])
    {
      PrintsItsOwnExactlyWhen(row, columns[i]);
    }
  }

  /** No column of a row is answered by the prototype. */
  predicate NothingLeaks(columns: seq<string>, rows: seq<Row>) {
    forall row <- rows, column <- columns :: !Leaks(row, column)
  }

  /**
    The export round trip, for every table: re-reading the CSV gives the header and what the
    rows hold, with only the formula escape added, if and only if ComesBack and no column is
    left to the prototype. Quotes, commas, CR and LF inside cells are all covered.
  */
  lemma OwnRoundTrip(columns: seq<string>, rows: seq<Row>)
    ensures Records(Print(',', Table(columns, rows)), ',') == OwnTable(columns, rows) <==>
            ComesBack(columns, rows) && NothingLeaks(columns, rows)
  {
    var table, own := Table(columns, rows), OwnTable(columns, rows);
    CsvRoundTrip(columns, rows);
    OwnTableExactlyWhen(columns, rows);
    if !ComesBack(columns, rows) { LostTablesStayLost(columns, rows); }
  }

  /** A table that does not come back comes back as no other with its header and its number of rows. */
  lemma LostTablesStayLost(columns: seq<string>, rows: seq<Row>)
    requires !ComesBack(columns, rows)
    ensures var back := Records(Print(',', Table(columns, rows)), ',');
            |back| != |rows| + 1 || back[0] != Header(columns)
  {
    if columns == [] {
      NoColumnsNoRoundTrip(rows);
    } else {
      LastRecord(columns, rows);
      var table := Table(columns, rows);
      if BomLed(',', columns[0]) { BomIsLost(',', table); } else { PrintedTableReads(',', table); }
    }
  }

  /** The export of `[{}]` under a column named toString prints the inherited function. */
  lemma InheritedNamesLeak()
    ensures CsvValue(Object(map[], true), "toString") == "function " + "toString" + "() { [native code] }"
  {
  }

  /** A CR outside quotes ends the record whether or not an LF follows it, against the comment beside that branch. */
  lemma LoneCrEndsTheRecord(a: string, b: string)
    requires !NeedsQuotes(',', a) && !NeedsQuotes(',', b) && b != "" && !BomLed(',', a)
    ensures Records(a + "\r" + b, ',') == [[a], [b]]
  {
    var text := a + "\r" + b;
    var tail := "\r" + b;
    assert text == a + tail && StripBom(text) == text;
    PlainScan(',', a, tail, START);
    var c1 := START.(field := a, started := a != "");
    assert "" + a == a;
    assert Scan(text, ',', START) == Scan(tail, ',', c1);
    var c2 := Cursor([[a]], [], "", false, false);
    assert tail[0] == '\r' && tail[1..] == b && tail[1] == b[0] != '\n';
    assert c1.EndRecord() == c2 by { assert [] + [a] == [a]; }
    assert Scan(tail, ',', c1) == Scan(b, ',', c2);
    PlainScan(',', b, "", c2);
    assert b + "" == b && "" + b == b;
    var c3 := c2.(field := b, started := true);
    assert Scan(b, ',', c2) == c3;
    assert [] + [b] == [b] && [[a]] + [[b]] == [[a], [b]];
    assert Flush(c3) == [[a], [b]];
  }
}
