/**
  Delimited text as people and other programs write it: fields quoted or bare in any mixture,
  quotes in the middle of a bare field, text after a closing quote, the three line ends, a last
  line with or without one, and a quote that is never closed. What the splitter makes of it.
*/
module DelimitedTexts {
  import opened Delimited
  import opened Sequences

  /** How one field is written. */
  datatype Written = Bare(text: string) | Quoted(text: string, tail: string) {
    function Text(): string {
      if Bare? then text else "\"" + (Doubled(text) + ("\"" + tail))
    }

    function Value(): string {
      if Bare? then text else text + tail
    }

    /** What stands outside quotes holds no delimiter or line end and does not begin with a quote. */
    predicate Proper(d: char) {
      var plain := if Bare? then text else tail;
      d !in plain && '\r' !in plain && '\n' !in plain && (plain == "" || plain[0] != '"')
    }
  }

  datatype End = Lf | CrLf | Cr {
    function Text(): string {
      match this
      case Lf => "\n"
      case CrLf => "\r\n"
      case Cr => "\r"
    }
  }

  /** A line that ends, with at least one field. */
  datatype Line = Line(fields: seq<Written>, end: End)

  /** The lines, and what follows the last line end: fields, and a field whose quote is never closed. */
  datatype Document = Document(lines: seq<Line>, fields: seq<Written>, unclosed: seq<string>)

  function FieldsText(d: char, fields: seq<Written>): string {
    if fields == [] then "" else
      fields[0].Text() + if |fields| == 1 then "" else [d] + FieldsText(d, fields[1..])
  }

  function Values(fields: seq<Written>): Record {
    seq(|fields|, i requires 0 <= i < |fields| => fields[i].Value())
  }

  /** What follows the last line end. */
  function LastText(d: char, doc: Document): string {
    if doc.unclosed == [] then FieldsText(d, doc.fields)
    else FieldsText(d, doc.fields) + ((if doc.fields == [] then "" else [d]) + ("\"" + Doubled(doc.unclosed[0])))
  }

  function Text(d: char, doc: Document): string
    decreases |doc.lines|
  {
    if doc.lines == [] then LastText(d, doc)
    else FieldsText(d, doc.lines[0].fields)
         + (doc.lines[0].end.Text() + Text(d, doc.(lines := doc.lines[1..])))
  }

  predicate Proper(d: char, doc: Document)
    decreases |doc.lines|
  {
    if doc.lines == [] then (forall f <- doc.fields :: f.Proper(d)) && |doc.unclosed| <= 1
    else
      var rest := doc.(lines := doc.lines[1..]);
      && doc.lines[0].fields != [] && (forall f <- doc.lines[0].fields :: f.Proper(d))
      && (doc.lines[0].end.Cr? ==> var next := Text(d, rest); next == "" || next[0] != '\n')
      && Proper(d, rest)
  }

  /** The record behind the last line end, if there is one: a single empty field is none, unless its quote is open. */
  function LastRecord(doc: Document): seq<Record> {
    var last := Values(doc.fields) + doc.unclosed;
    if doc.unclosed == [] && (last == [] || last == [""]) then [] else [last]
  }

  function Meant(doc: Document): seq<Record> {
    seq(|doc.lines|, i requires 0 <= i < |doc.lines| => Values(doc.lines[i].fields)) + LastRecord(doc)
  }

  // ---------------------------------------------------------------- reading fields

  lemma {:induction false} PlainIsRead(d: char, f: string, rest: string, c: Cursor)
    requires Separates(d) && !c.inQuotes && (c.started || f == "" || f[0] != '"')
    requires d !in f && '\r' !in f && '\n' !in f
    ensures Scan(f + rest, d, c) == Scan(rest, d, c.(field := c.field + f, started := c.started || f != ""))
    decreases |f|
  {
    if f == "" {
      assert f + rest == rest && c.field + f == c.field;
    } else {
      var c' := c.Push(f[0]).(started := true);
      assert (f + rest)[1..] == f[1..] + rest && (f + rest)[0] == f[0];
      assert forall ch <- f[1..] :: ch in f;
      PlainIsRead(d, f[1..], rest, c');
      assert c'.field + f[1..] == c.field + f;
    }
  }

  lemma QuotedRegroups(body: string, tail: string, rest: string)
    ensures "\"" + (body + ("\"" + tail)) + rest == "\"" + (body + "\"" + (tail + rest))
  {
  }

  lemma QuotedIsRead(d: char, text: string, tail: string, rest: string, c: Cursor)
    requires Separates(d) && Fresh(c) && Quoted(text, tail).Proper(d) && (rest == "" || rest[0] != '"')
    ensures Scan(Quoted(text, tail).Text() + rest, d, c) ==
            Scan(rest, d, c.(field := text + tail, started := true))
  {
    var after := tail + rest;
    var body := Doubled(text) + "\"" + after;
    QuotedRegroups(Doubled(text), tail, rest);
    Cons('"', body);
    assert after == "" || after[0] == if tail == "" then rest[0] else tail[0];
    QuotedScan(d, text, after, c.(inQuotes := true, started := true));
    assert c.field + text == text;
    PlainIsRead(d, tail, rest, c.(field := text, started := true));
  }

  /** A field, up to its separator, is read as its value. */
  lemma FieldIsRead(d: char, f: Written, rest: string, c: Cursor) returns (started: bool)
    requires Separates(d) && Fresh(c) && f.Proper(d) && (rest == "" || rest[0] != '"')
    ensures Scan(f.Text() + rest, d, c) == Scan(rest, d, c.(field := f.Value(), started := started))
  {
    if f.Bare? {
      PlainIsRead(d, f.text, rest, c);
      assert c.field + f.text == f.text;
      started := f.text != "";
    } else {
      QuotedIsRead(d, f.text, f.tail, rest, c);
      started := true;
    }
  }

  lemma ValuesCons(fields: seq<Written>)
    requires fields != []
    ensures Values(fields) == [fields[0].Value()] + Values(fields[1..])
  {
  }

  /** The cursor once the fields of a line have been read and its last one is still open. */
  function AtLast(c: Cursor, fields: seq<Written>, started: bool): Cursor
    requires fields != []
  {
    var values := Values(fields);
    c.(record := c.record + values[..|values| - 1], field := values[|values| - 1], started := started)
  }

  lemma AtLastCons(c: Cursor, fields: seq<Written>, started: bool)
    requires |fields| > 1
    ensures AtLast(c.(record := c.record + [fields[0].Value()]), fields[1..], started) == AtLast(c, fields, started)
  {
    ValuesCons(fields);
    var v, more := fields[0].Value(), Values(fields[1..]);
    assert ([v] + more)[..|fields| - 1] == [v] + more[..|more| - 1];
    Assoc(c.record, [v], more[..|more| - 1]);
  }

  /** The fields of a line, one after the other. */
  lemma {:induction false} FieldsAreRead(d: char, fields: seq<Written>, rest: string, c: Cursor) returns (started: bool)
    requires Separates(d) && Fresh(c) && fields != [] && (forall f <- fields :: f.Proper(d))
    requires rest == "" || rest[0] != '"'
    ensures Scan(FieldsText(d, fields) + rest, d, c) == Scan(rest, d, AtLast(c, fields, started))
    decreases |fields|
  {
    var f := fields[0];
    assert f in fields;
    if |fields| == 1 {
      assert f.Text() + "" == f.Text();
      started := FieldIsRead(d, f, rest, c);
      assert c.record + Values(fields)[..0] == c.record;
    } else {
      var tail := FieldsText(d, fields[1..]) + rest;
      FieldsSplit(d, fields, rest);
      var begun := FieldIsRead(d, f, [d] + tail, c);
      DelimiterScan(d, tail, c.(field := f.Value(), started := begun));
      assert forall g <- fields[1..] :: g in fields;
      started := FieldsAreRead(d, fields[1..], rest, c.(record := c.record + [f.Value()]));
      AtLastCons(c, fields, started);
    }
  }

  lemma FieldsSplit(d: char, fields: seq<Written>, rest: string)
    requires |fields| > 1
    ensures FieldsText(d, fields) + rest == fields[0].Text() + ([d] + (FieldsText(d, fields[1..]) + rest))
  {
    Assoc(fields[0].Text(), [d] + FieldsText(d, fields[1..]), rest);
    Assoc([d], FieldsText(d, fields[1..]), rest);
  }

  // ----------------------------------------------------------------- reading lines

  lemma EndIsRead(d: char, end: End, rest: string, c: Cursor)
    requires Separates(d) && !c.inQuotes && (end.Cr? ==> rest == "" || rest[0] != '\n')
    ensures Scan(end.Text() + rest, d, c) == Scan(rest, d, c.EndRecord())
  {
    match end
    case Lf => Cons('\n', rest);
    case Cr => Cons('\r', rest);
    case CrLf =>
      assert "\r\n" + rest == ['\r'] + (['\n'] + rest);
      Cons('\r', ['\n'] + rest);
      Cons('\n', rest);
      assert ("\r\n" + rest)[2..] == rest;
  }

  /** Nothing of the next record has been read. */
  predicate Resting(c: Cursor) {
    Fresh(c) && c.record == []
  }

  lemma LineEnds(c: Cursor, fields: seq<Written>, started: bool)
    requires Resting(c) && fields != []
    ensures AtLast(c, fields, started).EndRecord() == Cursor(c.records + [Values(fields)], [], "", false, false)
  {
    Unsnoc(Values(fields));
    assert [] + Values(fields)[..|fields| - 1] == Values(fields)[..|fields| - 1];
  }

  lemma LineIsRead(d: char, line: Line, rest: string, c: Cursor)
    requires Separates(d) && Resting(c) && line.fields != [] && (forall f <- line.fields :: f.Proper(d))
    requires line.end.Cr? ==> rest == "" || rest[0] != '\n'
    ensures Scan(FieldsText(d, line.fields) + (line.end.Text() + rest), d, c) ==
            Scan(rest, d, Cursor(c.records + [Values(line.fields)], [], "", false, false))
  {
    var started := FieldsAreRead(d, line.fields, line.end.Text() + rest, c);
    EndIsRead(d, line.end, rest, AtLast(c, line.fields, started));
    LineEnds(c, line.fields, started);
  }

  lemma {:induction false} UnclosedIsRead(d: char, text: string, c: Cursor)
    requires c.inQuotes
    ensures Scan(Doubled(text), d, c) == c.(field := c.field + text)
    decreases |text|
  {
    if text == "" {
      assert c.field + text == c.field;
    } else {
      var tail := Doubled(text[1..]);
      var c' := c.Push(text[0]);
      assert Scan(Doubled(text), d, c) == Scan(tail, d, c') by {
        if text[0] == '"' { assert Doubled(text)[2..] == tail; } else { assert Doubled(text)[1..] == tail; }
      }
      UnclosedIsRead(d, text[1..], c');
      assert c'.field + text[1..] == c.field + text;
    }
  }

  /** A quote that is never closed keeps its field, and the record it is in, to the end. */
  lemma UnclosedRecord(d: char, record: Record, text: string, c: Cursor)
    requires Separates(d) && Fresh(c) && c.record == record
    ensures Flush(Scan("\"" + Doubled(text), d, c)) == c.records + [record + [text]]
  {
    Cons('"', Doubled(text));
    UnclosedIsRead(d, text, c.(inQuotes := true, started := true));
    assert c.field + text == text;
  }

  lemma AllButUnclosed(d: char, fields: seq<Written>, text: string, c: Cursor)
    requires Separates(d) && Resting(c) && fields != [] && (forall f <- fields :: f.Proper(d))
    ensures Flush(Scan(FieldsText(d, fields) + ([d] + ("\"" + Doubled(text))), d, c)) ==
            c.records + [Values(fields) + [text]]
  {
    var rest := "\"" + Doubled(text);
    var started := FieldsAreRead(d, fields, [d] + rest, c);
    DelimiterScan(d, rest, AtLast(c, fields, started));
    Unsnoc(Values(fields));
    assert [] + Values(fields)[..|fields| - 1] == Values(fields)[..|fields| - 1];
    UnclosedRecord(d, Values(fields), text, c.(record := Values(fields)));
  }

  lemma LastFields(d: char, fields: seq<Written>, c: Cursor)
    requires Separates(d) && Resting(c) && fields != [] && (forall f <- fields :: f.Proper(d))
    ensures Flush(Scan(FieldsText(d, fields), d, c)) ==
            if Values(fields) == [""] then c.records else c.records + [Values(fields)]
  {
    assert FieldsText(d, fields) + "" == FieldsText(d, fields);
    var started := FieldsAreRead(d, fields, "", c);
    LineEnds(c, fields, started);
    assert [] + Values(fields)[..|fields| - 1] == Values(fields)[..|fields| - 1];
    assert Values(fields) == [""] <==> |fields| == 1 && Values(fields)[0] == "";
  }

  lemma LastIsRead(d: char, doc: Document, c: Cursor)
    requires Separates(d) && Resting(c) && doc.lines == [] && Proper(d, doc)
    ensures Flush(Scan(Text(d, doc), d, c)) == c.records + LastRecord(doc)
  {
    if doc.unclosed == [] {
      assert Values(doc.fields) + [] == Values(doc.fields);
      if doc.fields == [] { assert Values(doc.fields) == []; } else { LastFields(d, doc.fields, c); }
    } else {
      assert doc.unclosed == [doc.unclosed[0]];
      var open := "\"" + Doubled(doc.unclosed[0]);
      if doc.fields == [] {
        assert "" + ("" + open) == open && Values([]) == [] && [] + doc.unclosed == doc.unclosed;
        UnclosedRecord(d, [], doc.unclosed[0], c);
      } else {
        AllButUnclosed(d, doc.fields, doc.unclosed[0], c);
      }
    }
  }

  lemma MeantCons(doc: Document, before: seq<Record>)
    requires doc.lines != []
    ensures before + Meant(doc) == before + [Values(doc.lines[0].fields)] + Meant(doc.(lines := doc.lines[1..]))
  {
    var rest := doc.(lines := doc.lines[1..]);
    var all := seq(|doc.lines|, i requires 0 <= i < |doc.lines| => Values(doc.lines[i].fields));
    assert all == [all[0]] + seq(|rest.lines|, i requires 0 <= i < |rest.lines| => Values(rest.lines[i].fields));
  }

  lemma {:induction false} DocumentScan(d: char, doc: Document, c: Cursor)
    requires Separates(d) && Resting(c) && Proper(d, doc)
    ensures Flush(Scan(Text(d, doc), d, c)) == c.records + Meant(doc)
    decreases |doc.lines|
  {
    if doc.lines == [] {
      LastIsRead(d, doc, c);
      assert Meant(doc) == LastRecord(doc);
    } else {
      var line, rest := doc.lines[0], doc.(lines := doc.lines[1..]);
      LineIsRead(d, line, Text(d, rest), c);
      DocumentScan(d, rest, Cursor(c.records + [Values(line.fields)], [], "", false, false));
      MeantCons(doc, c.records);
    }
  }

  /**
    What the splitter makes of delimited text, for every delimiter but a quote and the line ends:
    each line's values, whichever line end it has; a closing quote may be followed by more of the
    field; an unclosed quote takes the rest of the text; a last line without an end counts unless
    it is a single empty field; and a byte order mark in front is dropped.
  */
  lemma DocumentsAreSplit(d: char, doc: Document)
    requires Separates(d) && Proper(d, doc)
    ensures Records([BOM] + Text(d, doc), d) == Meant(doc)
    ensures Text(d, doc) == "" || Text(d, doc)[0] != BOM ==> Records(Text(d, doc), d) == Meant(doc)
  {
    Cons(BOM, Text(d, doc));
    DocumentScan(d, doc, START);
    assert [] + Meant(doc) == Meant(doc);
  }

  // ------------------------------------------------------- every text is such a text

  lemma {:induction false} QuotedPart(t: string) returns (closed: bool, body: string, after: string)
    ensures closed ==> t == Doubled(body) + ("\"" + after) && (after == "" || after[0] != '"')
    ensures !closed ==> t == Doubled(body)
    decreases |t|
  {
    if t == "" {
      return false, "", "";
    }
    var more: string;
    if t[0] == '"' && (|t| == 1 || t[1] != '"') {
      assert t == "" + ("\"" + t[1..]);
      return true, "", t[1..];
    }
    var w := if t[0] == '"' then 2 else 1;
    closed, more, after := QuotedPart(t[w..]);
    body := [t[0]] + more;
    assert body[1..] == more;
    assert t == (if w == 2 then "\"\"" else [t[0]]) + t[w..];
    if closed { Assoc(if w == 2 then "\"\"" else [t[0]], Doubled(more), "\"" + after); }
  }

  lemma {:induction false} PlainPart(d: char, s: string) returns (plain: string, rest: string)
    ensures s == plain + rest && d !in plain && '\r' !in plain && '\n' !in plain
    ensures rest == "" || rest[0] == d || rest[0] == '\r' || rest[0] == '\n'
    decreases |s|
  {
    if s == "" || s[0] == d || s[0] == '\r' || s[0] == '\n' {
      plain, rest := "", s;
    } else {
      plain, rest := PlainPart(d, s[1..]);
      plain := [s[0]] + plain;
    }
  }

  /** The first field of a text, or the quote it never closes. */
  lemma FirstField(d: char, text: string) returns (unclosed: bool, f: Written, rest: string)
    ensures unclosed ==> f.Bare? && text == "\"" + Doubled(f.text)
    ensures !unclosed ==>
              && f.Proper(d) && text == f.Text() + rest
              && (rest == "" || rest[0] == d || rest[0] == '\r' || rest[0] == '\n')
  {
    unclosed := false;
    var plain: string;
    if text != "" && text[0] == '"' {
      var closed, body, after := QuotedPart(text[1..]);
      assert text == "\"" + text[1..];
      if !closed { return true, Bare(body), ""; }
      plain, rest := PlainPart(d, after);
      f := Quoted(body, plain);
      QuotedRegroups(Doubled(body), plain, rest);
      Assoc(Doubled(body), "\"", plain + rest);
    } else {
      plain, rest := PlainPart(d, text);
      f := Bare(plain);
    }
  }

  /** A document with a field and a delimiter put in front of it. */
  function Prefixed(f: Written, doc: Document): Document {
    if doc.lines != [] then
      doc.(lines := [Line([f] + doc.lines[0].fields, doc.lines[0].end)] + doc.lines[1..])
    else if doc.fields == [] && doc.unclosed == [] then doc.(fields := [f, Bare("")])
    else doc.(fields := [f] + doc.fields)
  }

  lemma PrefixedFields(d: char, f: Written, fields: seq<Written>)
    requires fields != []
    ensures FieldsText(d, [f] + fields) == f.Text() + ([d] + FieldsText(d, fields))
  {
    assert ([f] + fields)[1..] == fields;
  }

  lemma PrefixedLine(d: char, f: Written, doc: Document)
    requires f.Proper(d) && Proper(d, doc) && doc.lines != []
    ensures Proper(d, Prefixed(f, doc))
    ensures Text(d, Prefixed(f, doc)) == f.Text() + ([d] + Text(d, doc))
  {
    var line, more := doc.lines[0], doc.lines[1..];
    var first := Line([f] + line.fields, line.end);
    assert ([first] + more)[1..] == more;
    PrefixedFields(d, f, line.fields);
    var tail := line.end.Text() + Text(d, doc.(lines := more));
    Assoc(f.Text(), [d] + FieldsText(d, line.fields), tail);
    Assoc([d], FieldsText(d, line.fields), tail);
  }

  lemma PrefixedText(d: char, f: Written, doc: Document)
    requires f.Proper(d) && Proper(d, doc)
    ensures Proper(d, Prefixed(f, doc)) && Text(d, Prefixed(f, doc)) == f.Text() + ([d] + Text(d, doc))
  {
    if doc.lines != [] {
      PrefixedLine(d, f, doc);
    } else if doc.fields == [] && doc.unclosed == [] {
      PrefixedFields(d, f, [Bare("")]);
      assert [f] + [Bare("")] == [f, Bare("")];
    } else {
      PrefixedLast(d, f, doc);
    }
  }

  lemma PrefixedLast(d: char, f: Written, doc: Document)
    requires doc.lines == [] && (doc.fields != [] || doc.unclosed != [])
    ensures LastText(d, doc.(fields := [f] + doc.fields)) == f.Text() + ([d] + LastText(d, doc))
  {
    if doc.fields == [] {
      var open := "\"" + Doubled(doc.unclosed[0]);
      assert [f] + doc.fields == [f] && FieldsText(d, [f]) == f.Text();
      assert "" + ("" + open) == open;
    } else {
      PrefixedFields(d, f, doc.fields);
      if doc.unclosed != [] {
        Assoc(f.Text(), [d] + FieldsText(d, doc.fields), [d] + ("\"" + Doubled(doc.unclosed[0])));
        Assoc([d], FieldsText(d, doc.fields), [d] + ("\"" + Doubled(doc.unclosed[0])));
      }
    }
  }

  lemma EndedText(d: char, f: Written, end: End, doc: Document)
    requires f.Proper(d) && Proper(d, doc) && (end.Cr? ==> Text(d, doc) == "" || Text(d, doc)[0] != '\n')
    ensures var ended := doc.(lines := [Line([f], end)] + doc.lines);
            Proper(d, ended) && Text(d, ended) == f.Text() + (end.Text() + Text(d, doc))
  {
    var ended := doc.(lines := [Line([f], end)] + doc.lines);
    assert ended.(lines := ended.lines[1..]) == doc;
    assert FieldsText(d, [f]) == f.Text();
  }

  /** Before a line end that is read as one, so that a CR with an LF behind it is not. */
  lemma EndOf(rest: string) returns (end: End, w: nat)
    requires rest != "" && (rest[0] == '\r' || rest[0] == '\n')
    ensures 1 <= w <= |rest| && rest == end.Text() + rest[w..]
    ensures end.Cr? ==> rest[w..] == "" || rest[w..][0] != '\n'
  {
    end := if rest[0] == '\n' then Lf else if |rest| > 1 && rest[1] == '\n' then CrLf else Cr;
    w := if end.CrLf? then 2 else 1;
  }

  /** Every text is the text of a document, so every text is split into what it means. */
  lemma {:induction false} EveryTextIsADocument(d: char, text: string) returns (doc: Document)
    requires Separates(d)
    ensures Proper(d, doc) && Text(d, doc) == text
    decreases |text|
  {
    if text == "" { return Document([], [], []); }
    var unclosed, f, rest := FirstField(d, text);
    if unclosed {
      doc := Document([], [], [f.text]);
      assert "" + ("" + text) == text;
    } else if rest == "" {
      doc := Document([], [f], []);
      assert f.Text() + "" == text && f.Text() + rest == f.Text();
    } else if rest[0] == d {
      doc := EveryTextIsADocument(d, rest[1..]);
      PrefixedText(d, f, doc);
      Uncons(rest);
      doc := Prefixed(f, doc);
    } else {
      var end, w := EndOf(rest);
      doc := EveryTextIsADocument(d, rest[w..]);
      EndedText(d, f, end, doc);
      doc := doc.(lines := [Line([f], end)] + doc.lines);
    }
  }
}
