/** Reading a file's unified diff into rows, and what the rows tell about its two sides. */
module UnifiedDiff {
  import opened Options
  import opened Decimals
  import opened JsText
  import opened Sequences

  datatype Kind = Add | Del | Context | Hunk | Meta

  datatype Row = Row(kind: Kind, text: string, oldLine: Option<nat>, newLine: Option<nat>)

  // ------------------------------------------------------------- hunk headers

  datatype Header = Header(oldStart: nat, newStart: nat)

  function Ats(s: string): (k: nat)
    ensures k <= |s|
  {
    if s != "" && s[0] == '@' then 1 + Ats(s[1..]) else 0
  }

  /** What follows a range's count, if it has one. */
  function SkipCount(s: string): string {
    var c := After(s, ",");
    var d := if c.Some? then TakeDigits(c.value) else None;
    if d.Some? then d.value.rest else s
  }

  /** One side's range: its start, and what follows the range. */
  function TakeStart(s: string, sign: string): Option<Read> {
    var a := After(s, sign);
    var d := if a.Some? then TakeDigits(a.value) else None;
    if d.Some? then Some(Read(d.value.digits, SkipCount(d.value.rest))) else None
  }

  /** The hunk header a line is, if it is one. */
  function ReadHeader(line: string): Option<Header> {
    var left := if Ats(line) >= 2 then TakeStart(line[Ats(line)..], " -") else None;
    var right := if left.Some? then TakeStart(left.value.rest, " +") else None;
    if right.Some? && After(right.value.rest, " @@").Some?
    then Some(Header(Value(left.value.digits), Value(right.value.digits)))
    else None
  }

  // ---------------------------------------------------------------- reading

  /** The numbers the next lines carry, once a header has given some. */
  datatype Cursor = Cursor(left: nat, right: nat, numbering: bool)

  function Numbered(c: Cursor, n: nat): Option<nat> {
    if c.numbering then Some(n) else None
  }

  function RowOf(line: string, c: Cursor): Row {
    if ReadHeader(line).Some? then Row(Hunk, line, None, None)
    else if line == "" then Row(Context, "", Numbered(c, c.left), Numbered(c, c.right))
    else match line[0]
      case '+' => Row(Add, line[1..], None, Numbered(c, c.right))
      case '-' => Row(Del, line[1..], Numbered(c, c.left), None)
      case ' ' => Row(Context, line[1..], Numbered(c, c.left), Numbered(c, c.right))
      case _ => Row(Meta, line, None, None)
  }

  function Advance(line: string, c: Cursor): Cursor {
    var h := ReadHeader(line);
    if h.Some? then Cursor(h.value.oldStart, h.value.newStart, true)
    else if !c.numbering then c
    else if line == "" || line[0] == ' ' then c.(left := c.left + 1, right := c.right + 1)
    else if line[0] == '+' then c.(right := c.right + 1)
    else if line[0] == '-' then c.(left := c.left + 1)
    else c
  }

  function Rows(raw: seq<string>, c: Cursor): (rows: seq<Row>)
    ensures |rows| == |raw|
  {
    if raw == [] then [] else [RowOf(raw[0], c)] + Rows(raw[1..], Advance(raw[0], c))
  }

  /** The lines of a patch: a final newline does not begin one. */
  function RawLines(patch: string): seq<string> {
    var raw := Parts(patch);
    if raw[|raw| - 1] == "" then raw[..|raw| - 1] else raw
  }

  const START: Cursor := Cursor(0, 0, false)

  function Parsed(patch: string): seq<Row> {
    Rows(RawLines(patch), START)
  }

  /** One turn of the loop: the row a line makes, and how the line numbers move. */
  method ParseLine(line: string, oldLine: nat, newLine: nat, numbering: bool)
    returns (row: Row, oldNext: nat, newNext: nat, numberingNext: bool)
    ensures var c := Cursor(oldLine, newLine, numbering);
            row == RowOf(line, c) && Cursor(oldNext, newNext, numberingNext) == Advance(line, c)
  {
    oldNext, newNext, numberingNext := oldLine, newLine, numbering;
    var hunk := ReadHeader(line);
    if hunk.Some? {
      return Row(Hunk, line, None, None), hunk.value.oldStart, hunk.value.newStart, true;
    }
    var marker := if line == "" then ' ' else line[0];
    if marker == '+' {
      row := Row(Add, line[1..], None, if numbering then Some(newLine) else None);
      if numbering { newNext := newLine + 1; }
    } else if marker == '-' {
      row := Row(Del, line[1..], if numbering then Some(oldLine) else None, None);
      if numbering { oldNext := oldLine + 1; }
    } else if marker == ' ' {
      var text := if line == "" then "" else line[1..];
      row := Row(Context, text, if numbering then Some(oldLine) else None, if numbering then Some(newLine) else None);
      if numbering { oldNext, newNext := oldLine + 1, newLine + 1; }
    } else {
      row := Row(Meta, line, None, None);
    }
  }

  lemma RowsTurn(raw: seq<string>, i: nat, c: Cursor, lines: seq<Row>)
    requires i < |raw|
    ensures lines + Rows(raw[i..], c) == lines + [RowOf(raw[i], c)] + Rows(raw[i + 1..], Advance(raw[i], c))
  {
    assert raw[i..][0] == raw[i] && raw[i..][1..] == raw[i + 1..];
  }

  method ParseUnifiedDiff(patch: string) returns (lines: seq<Row>)
    ensures lines == Parsed(patch)
  {
    if patch == "" { return []; }
    var raw := Parts(patch);
    if raw[|raw| - 1] == "" { raw := raw[..|raw| - 1]; }
    lines := [];
    var oldLine: nat, newLine: nat, numbering := 0, 0, false;
    assert raw[0..] == raw;
    for i := 0 to |raw|
      invariant lines + Rows(raw[i..], Cursor(oldLine, newLine, numbering)) == Rows(raw, START)
    {
      RowsTurn(raw, i, Cursor(oldLine, newLine, numbering), lines);
      var row;
      row, oldLine, newLine, numbering := ParseLine(raw[i], oldLine, newLine, numbering);
      lines := lines + [row];
    }
  }

  // ---------------------------------------------------------------- writing

  /** A line of a hunk. A context line without content may have lost its marker. */
  datatype Line = Same(text: string, marked: bool) | Old(text: string) | New(text: string) | NoNewline

  /** A hunk: how many lines stand before it on each side, its header, and its lines. */
  datatype Piece = Piece(oldAt: nat, newAt: nat, header: string, lines: seq<Line>)

  predicate InOld(line: Line) { line.Same? || line.Old? }

  predicate InNew(line: Line) { line.Same? || line.New? }

  function OldSide(lines: seq<Line>): seq<string> {
    if lines == [] then [] else if InOld(lines[0]) then [lines[0].text] + OldSide(lines[1..]) else OldSide(lines[1..])
  }

  function NewSide(lines: seq<Line>): seq<string> {
    if lines == [] then [] else if InNew(lines[0]) then [lines[0].text] + NewSide(lines[1..]) else NewSide(lines[1..])
  }

  /** The number a range gives: that of its first line, or of the line before it when it is empty. */
  function StartOf(at: nat, count: nat): nat {
    if count == 0 then at else at + 1
  }

  /** A range: its number, then its count. */
  function RangeText(at: nat, count: nat, terse: bool): string {
    Decimal(StartOf(at, count)) + if terse && count == 1 then "" else "," + Decimal(count)
  }

  /** Both ranges of a header, and what ends it. */
  function RangesText(p: Piece, terse: bool, heading: string): string {
    " -" + (RangeText(p.oldAt, |OldSide(p.lines)|, terse)
      + (" +" + (RangeText(p.newAt, |NewSide(p.lines)|, terse) + (" @@" + heading))))
  }

  function HeaderText(p: Piece, terse: bool, heading: string): string {
    "@@" + RangesText(p, terse, heading)
  }

  /** The hunk's header says where it stands; a heading may follow. */
  ghost predicate Printed(p: Piece) {
    exists terse: bool, heading: string :: '\n' !in heading && p.header == HeaderText(p, terse, heading)
  }

  function LineText(line: Line): string {
    match line
    case Same(text, marked) => if marked || text != "" then " " + text else ""
    case Old(text) => "-" + text
    case New(text) => "+" + text
    case NoNewline => "\\ No newline at end of file"
  }

  function LineTexts(lines: seq<Line>): (texts: seq<string>)
    ensures |texts| == |lines|
  {
    if lines == [] then [] else [LineText(lines[0])] + LineTexts(lines[1..])
  }

  function PatchLines(ps: seq<Piece>): seq<string> {
    if ps == [] then [] else [ps[0].header] + LineTexts(ps[0].lines) + PatchLines(ps[1..])
  }

  function PatchText(ps: seq<Piece>): string {
    if ps == [] then "" else Join(PatchLines(ps), "\n") + "\n"
  }

  /** The hunks turn a into b, from o lines of a and n of b on: each stands where it says, and all between is common. */
  ghost predicate Diffs(ps: seq<Piece>, a: seq<string>, b: seq<string>, o: nat, n: nat) {
    && o <= |a| && n <= |b|
    && if ps == [] then a[o..] == b[n..]
       else
         var p := ps[0];
         var (left, right) := (OldSide(p.lines), NewSide(p.lines));
         && o <= p.oldAt && n <= p.newAt && Stand(p.lines, a, b, p.oldAt, p.newAt)
         && a[o..p.oldAt] == b[n..p.newAt]
         && Diffs(ps[1..], a, b, p.oldAt + |left|, p.newAt + |right|)
  }

  /** Headers are printed as they should be, and no line holds a newline. */
  ghost predicate WellFormed(ps: seq<Piece>) {
    forall p <- ps :: Printed(p) && forall line <- p.lines :: line.NoNewline? || '\n' !in line.text
  }

  // ------------------------------------------------------- the header comes back

  lemma RangeReads(at: nat, count: nat, terse: bool, sign: string, rest: string)
    requires rest != "" && rest[0] == ' '
    ensures TakeStart(sign + (RangeText(at, count, terse) + rest), sign)
            == Some(Read(Decimal(StartOf(at, count)), rest))
  {
    var start := StartOf(at, count);
    if terse && count == 1 {
      BareRangeReads(start, sign, rest);
      assert RangeText(at, count, terse) == Decimal(start);
    } else {
      CountedRangeReads(start, count, sign, rest);
      Assoc(Decimal(start), "," + Decimal(count), rest);
      Assoc(",", Decimal(count), rest);
    }
  }

  lemma BareRangeReads(start: nat, sign: string, rest: string)
    requires rest != "" && rest[0] == ' '
    ensures TakeStart(sign + (Decimal(start) + rest), sign) == Some(Read(Decimal(start), rest))
  {
    ValueOfDecimal(start);
    AfterBack(sign, Decimal(start) + rest);
    TakeDigitsBack(Decimal(start), rest);
  }

  lemma CountedRangeReads(start: nat, count: nat, sign: string, rest: string)
    requires rest != "" && rest[0] == ' '
    ensures TakeStart(sign + (Decimal(start) + ("," + (Decimal(count) + rest))), sign)
            == Some(Read(Decimal(start), rest))
  {
    var tail := "," + (Decimal(count) + rest);
    ValueOfDecimal(start);
    AfterBack(sign, Decimal(start) + tail);
    TakeDigitsBack(Decimal(start), tail);
    CountSkips(count, rest);
  }

  lemma CountSkips(count: nat, rest: string)
    requires rest != "" && rest[0] == ' '
    ensures SkipCount("," + (Decimal(count) + rest)) == rest
  {
    ValueOfDecimal(count);
    AfterBack(",", Decimal(count) + rest);
    TakeDigitsBack(Decimal(count), rest);
  }

  /** The header is read as the numbers the hunk stands at. */
  predicate Headed(p: Piece) {
    var h := ReadHeader(p.header);
    && h.Some?
    && h.value.oldStart == StartOf(p.oldAt, |OldSide(p.lines)|)
    && h.value.newStart == StartOf(p.newAt, |NewSide(p.lines)|)
  }

  lemma TwoAts(rest: string)
    requires rest != "" && rest[0] != '@'
    ensures Ats("@@" + rest) == 2 && ("@@" + rest)[2..] == rest
  {
    var s := "@@" + rest;
    assert s[1..] == "@" + rest;
    assert ("@" + rest)[1..] == rest;
    assert Ats(rest) == 0 && Ats("@" + rest) == 1;
  }

  lemma RestReads(newAt: nat, count: nat, terse: bool, heading: string)
    ensures var r := TakeStart(" +" + (RangeText(newAt, count, terse) + (" @@" + heading)), " +");
            && r == Some(Read(Decimal(StartOf(newAt, count)), " @@" + heading))
            && After(r.value.rest, " @@").Some?
  {
    RangeReads(newAt, count, terse, " +", " @@" + heading);
    AfterBack(" @@", heading);
  }

  lemma HeaderOf(body: string, d: string, right: string, e: string, tail: string)
    requires TakeStart(" -" + body, " -") == Some(Read(d, right)) && TakeStart(right, " +") == Some(Read(e, tail))
    requires After(tail, " @@").Some?
    ensures ReadHeader("@@" + (" -" + body)) == Some(Header(Value(d), Value(e)))
  {
    TwoAts(" -" + body);
  }

  lemma RangesRead(at: nat, count: nat, right: string, d: string, tail: string, terse: bool)
    requires right != "" && right[0] == ' '
    requires TakeStart(right, " +") == Some(Read(d, tail)) && After(tail, " @@").Some?
    ensures ReadHeader("@@" + (" -" + (RangeText(at, count, terse) + right)))
            == Some(Header(Value(Decimal(StartOf(at, count))), Value(d)))
  {
    RangeReads(at, count, terse, " -", right);
    HeaderOf(RangeText(at, count, terse) + right, Decimal(StartOf(at, count)), right, d, tail);
  }

  lemma BothRead(at: nat, count: nat, newAt: nat, newCount: nat, terse: bool, heading: string)
    ensures ReadHeader("@@" + (" -" + (RangeText(at, count, terse)
                                       + (" +" + (RangeText(newAt, newCount, terse) + (" @@" + heading))))))
            == Some(Header(StartOf(at, count), StartOf(newAt, newCount)))
  {
    RestReads(newAt, newCount, terse, heading);
    RangesRead(at, count, " +" + (RangeText(newAt, newCount, terse) + (" @@" + heading)),
               Decimal(StartOf(newAt, newCount)), " @@" + heading, terse);
    ValueOfDecimal(StartOf(at, count));
    ValueOfDecimal(StartOf(newAt, newCount));
  }

  lemma HeaderTextReads(p: Piece, terse: bool, heading: string)
    requires p.header == HeaderText(p, terse, heading)
    ensures Headed(p)
  {
    BothRead(p.oldAt, |OldSide(p.lines)|, p.newAt, |NewSide(p.lines)|, terse, heading);
  }

  lemma HeaderReads(p: Piece)
    requires Printed(p)
    ensures Headed(p) && '\n' !in p.header
  {
    var terse: bool, heading: string :| '\n' !in heading && p.header == HeaderText(p, terse, heading);
    HeaderTextReads(p, terse, heading);
    HeaderIsOneLine(p, terse, heading);
  }

  // ---------------------------------------------------------- the rows come back

  function OldAfter(line: Line, o: nat): nat { if InOld(line) then o + 1 else o }

  function NewAfter(line: Line, n: nat): nat { if InNew(line) then n + 1 else n }

  /** The row of a hunk's line, by position: o lines of the old side and n of the new stand before it. */
  function LineRow(line: Line, o: nat, n: nat): Row {
    match line
    case Same(text, _) => Row(Context, text, Some(o + 1), Some(n + 1))
    case Old(text) => Row(Del, text, Some(o + 1), None)
    case New(text) => Row(Add, text, None, Some(n + 1))
    case NoNewline => Row(Meta, LineText(NoNewline), None, None)
  }

  function LineRows(lines: seq<Line>, o: nat, n: nat): seq<Row> {
    if lines == [] then []
    else [LineRow(lines[0], o, n)] + LineRows(lines[1..], OldAfter(lines[0], o), NewAfter(lines[0], n))
  }

  function PatchRows(ps: seq<Piece>): seq<Row> {
    if ps == [] then []
    else [Row(Hunk, ps[0].header, None, None)] + LineRows(ps[0].lines, ps[0].oldAt, ps[0].newAt) + PatchRows(ps[1..])
  }

  function CursorAfter(lines: seq<Line>, c: Cursor): Cursor {
    if lines == [] then c else CursorAfter(lines[1..], Advance(LineText(lines[0]), c))
  }

  /** A side's cursor is right if the side has lines to come. */
  predicate OnTrack(lines: seq<Line>, o: nat, n: nat, c: Cursor) {
    && c.numbering
    && (OldSide(lines) != [] ==> c.left == o + 1)
    && (NewSide(lines) != [] ==> c.right == n + 1)
  }

  lemma LineReads(lines: seq<Line>, o: nat, n: nat, c: Cursor)
    requires lines != [] && OnTrack(lines, o, n, c)
    ensures RowOf(LineText(lines[0]), c) == LineRow(lines[0], o, n)
    ensures OnTrack(lines[1..], OldAfter(lines[0], o), NewAfter(lines[0], n), Advance(LineText(lines[0]), c))
  {
    var line := lines[0];
    assert !line.NoNewline? && LineText(line) != "" ==> LineText(line)[1..] == line.text;
  }

  lemma RowsCons(line: string, rest: seq<string>, c: Cursor)
    ensures Rows([line] + rest, c) == [RowOf(line, c)] + Rows(rest, Advance(line, c))
  {
    Cons(line, rest);
  }

  lemma LineReadsFirst(lines: seq<Line>, o: nat, n: nat, c: Cursor, rest: seq<string>)
    requires lines != [] && OnTrack(lines, o, n, c)
    ensures Rows(LineTexts(lines) + rest, c)
            == [LineRow(lines[0], o, n)] + Rows(LineTexts(lines[1..]) + rest, Advance(LineText(lines[0]), c))
  {
    LineReads(lines, o, n, c);
    Assoc([LineText(lines[0])], LineTexts(lines[1..]), rest);
    RowsCons(LineText(lines[0]), LineTexts(lines[1..]) + rest, c);
  }

  lemma {:induction false} LinesRead(lines: seq<Line>, o: nat, n: nat, c: Cursor, rest: seq<string>)
    requires OnTrack(lines, o, n, c)
    ensures Rows(LineTexts(lines) + rest, c) == LineRows(lines, o, n) + Rows(rest, CursorAfter(lines, c))
    decreases |lines|
  {
    if lines == [] {
      assert LineTexts(lines) + rest == rest;
    } else {
      var line := lines[0];
      var c' := Advance(LineText(line), c);
      LineReads(lines, o, n, c);
      LineReadsFirst(lines, o, n, c, rest);
      LinesRead(lines[1..], OldAfter(line, o), NewAfter(line, n), c', rest);
      Assoc([LineRow(line, o, n)], LineRows(lines[1..], OldAfter(line, o), NewAfter(line, n)),
            Rows(rest, CursorAfter(lines[1..], c')));
    }
  }

  lemma HeaderRow(p: Piece, c: Cursor)
    requires Headed(p)
    ensures RowOf(p.header, c) == Row(Hunk, p.header, None, None)
    ensures OnTrack(p.lines, p.oldAt, p.newAt, Advance(p.header, c))
  {
  }

  lemma PieceReads(p: Piece, rest: seq<string>, c: Cursor)
    requires Headed(p)
    ensures Rows([p.header] + LineTexts(p.lines) + rest, c)
            == [Row(Hunk, p.header, None, None)] + LineRows(p.lines, p.oldAt, p.newAt)
               + Rows(rest, CursorAfter(p.lines, Advance(p.header, c)))
  {
    var tail, after := LineTexts(p.lines) + rest, Advance(p.header, c);
    HeaderRow(p, c);
    Assoc([p.header], LineTexts(p.lines), rest);
    RowsCons(p.header, tail, c);
    LinesRead(p.lines, p.oldAt, p.newAt, after, rest);
    Assoc([RowOf(p.header, c)], LineRows(p.lines, p.oldAt, p.newAt), Rows(rest, CursorAfter(p.lines, after)));
  }

  lemma {:induction false} PiecesRead(ps: seq<Piece>, c: Cursor)
    requires forall p <- ps :: Headed(p)
    ensures Rows(PatchLines(ps), c) == PatchRows(ps)
    decreases |ps|
  {
    if ps != [] {
      assert ps[0] in ps && forall p <- ps[1..] :: p in ps;
      PieceReads(ps[0], PatchLines(ps[1..]), c);
      PiecesRead(ps[1..], CursorAfter(ps[0].lines, Advance(ps[0].header, c)));
    }
  }

  lemma DecimalIsOneLine(n: nat)
    ensures '\n' !in Decimal(n)
  {
    ValueOfDecimal(n);
  }

  lemma HeaderIsOneLine(p: Piece, terse: bool, heading: string)
    requires '\n' !in heading
    ensures '\n' !in HeaderText(p, terse, heading)
  {
    RangeIsOneLine(p.oldAt, |OldSide(p.lines)|, terse);
    RangeIsOneLine(p.newAt, |NewSide(p.lines)|, terse);
    assert '\n' !in "@@ -" && '\n' !in " +" && '\n' !in " @@";
  }

  lemma RangeIsOneLine(at: nat, count: nat, terse: bool)
    ensures '\n' !in RangeText(at, count, terse)
  {
    DecimalIsOneLine(StartOf(at, count));
    DecimalIsOneLine(count);
    assert '\n' !in ",";
  }

  lemma {:induction false} LinesAreOneLine(lines: seq<Line>)
    requires forall line <- lines :: line.NoNewline? || '\n' !in line.text
    ensures forall s <- LineTexts(lines) :: '\n' !in s
  {
    if lines != [] {
      assert lines[0] in lines && forall line <- lines[1..] :: line in lines;
      assert '\n' !in " " && '\n' !in "-" && '\n' !in "+" && '\n' !in LineText(NoNewline);
      assert '\n' !in LineText(lines[0]);
      LinesAreOneLine(lines[1..]);
    }
  }

  lemma {:induction false} PatchLinesAreOneLine(ps: seq<Piece>)
    requires WellFormed(ps)
    ensures forall s <- PatchLines(ps) :: '\n' !in s
  {
    if ps != [] {
      assert ps[0] in ps && forall p <- ps[1..] :: p in ps;
      HeaderReads(ps[0]);
      LinesAreOneLine(ps[0].lines);
      PatchLinesAreOneLine(ps[1..]);
    }
  }

  lemma {:induction false} JoinSnoc(lines: seq<string>)
    requires lines != []
    ensures Join(lines + [""], "\n") == Join(lines, "\n") + "\n"
    decreases |lines|
  {
    var more := lines + [""];
    assert more[1..] == lines[1..] + [""];
    if |lines| > 1 {
      JoinSnoc(lines[1..]);
    } else {
      assert more[1..] == [""];
    }
  }

  /** Any rendered diff reads back as its own rows, one for each line, with the numbers its hunks stand at. */
  lemma RenderedDiffReadsBack(ps: seq<Piece>)
    requires WellFormed(ps)
    ensures Parsed(PatchText(ps)) == PatchRows(ps) && |PatchRows(ps)| == |PatchLines(ps)|
  {
    var lines := PatchLines(ps);
    if ps != [] {
      PatchLinesAreOneLine(ps);
      JoinSnoc(lines);
      PartsJoin(lines + [""]);
      assert (lines + [""])[..|lines|] == lines;
    }
    assert RawLines(PatchText(ps)) == lines;
    forall p | p in ps ensures Headed(p) { HeaderReads(p); }
    PiecesRead(ps, START);
  }

  // --------------------------------------------------- what the rows say of the sides

  /** A row shows what the sides hold at the numbers it carries. */
  ghost predicate Shows(row: Row, a: seq<string>, b: seq<string>) {
    && (row.kind.Del? || row.kind.Context? <==> row.oldLine.Some?)
    && (row.kind.Add? || row.kind.Context? <==> row.newLine.Some?)
    && (row.oldLine.Some? ==> 1 <= row.oldLine.value <= |a| && a[row.oldLine.value - 1] == row.text)
    && (row.newLine.Some? ==> 1 <= row.newLine.value <= |b| && b[row.newLine.value - 1] == row.text)
  }

  /** The side is what xs holds from o on. */
  ghost predicate Holds(xs: seq<string>, o: nat, side: seq<string>) {
    o + |side| <= |xs| && xs[o..o + |side|] == side
  }

  lemma HoldsTail(xs: seq<string>, o: nat, text: string, rest: seq<string>)
    requires Holds(xs, o, [text] + rest)
    ensures xs[o] == text && Holds(xs, o + 1, rest)
  {
    var side := [text] + rest;
    assert xs[o] == xs[o..o + |side|][0];
    assert rest == side[1..] == xs[o..o + |side|][1..] == xs[o + 1..o + |side|];
  }

  /** The hunk's lines stand at o in a and at n in b. */
  ghost predicate Stand(lines: seq<Line>, a: seq<string>, b: seq<string>, o: nat, n: nat) {
    Holds(a, o, OldSide(lines)) && Holds(b, n, NewSide(lines))
  }

  lemma StandTail(lines: seq<Line>, a: seq<string>, b: seq<string>, o: nat, n: nat)
    requires lines != [] && Stand(lines, a, b, o, n)
    ensures var line := lines[0];
            && (InOld(line) ==> o < |a| && a[o] == line.text) && (InNew(line) ==> n < |b| && b[n] == line.text)
            && Stand(lines[1..], a, b, OldAfter(line, o), NewAfter(line, n))
            && OldAfter(line, o) + |OldSide(lines[1..])| == o + |OldSide(lines)|
            && NewAfter(line, n) + |NewSide(lines[1..])| == n + |NewSide(lines)|
  {
    if InOld(lines[0]) { HoldsTail(a, o, lines[0].text, OldSide(lines[1..])); }
    if InNew(lines[0]) { HoldsTail(b, n, lines[0].text, NewSide(lines[1..])); }
  }

  lemma {:induction false} LineRowsShow(lines: seq<Line>, a: seq<string>, b: seq<string>, o: nat, n: nat)
    requires Stand(lines, a, b, o, n)
    ensures forall row <- LineRows(lines, o, n) :: Shows(row, a, b)
    decreases |lines|
  {
    if lines != [] {
      StandTail(lines, a, b, o, n);
      assert Shows(LineRow(lines[0], o, n), a, b);
      LineRowsShow(lines[1..], a, b, OldAfter(lines[0], o), NewAfter(lines[0], n));
    }
  }

  lemma {:induction false} PatchRowsShow(ps: seq<Piece>, a: seq<string>, b: seq<string>, o: nat, n: nat)
    requires Diffs(ps, a, b, o, n)
    ensures forall row <- PatchRows(ps) :: Shows(row, a, b)
    decreases |ps|
  {
    if ps != [] {
      var p := ps[0];
      LineRowsShow(p.lines, a, b, p.oldAt, p.newAt);
      PatchRowsShow(ps[1..], a, b, p.oldAt + |OldSide(p.lines)|, p.newAt + |NewSide(p.lines)|);
    }
  }

  /** Every row of a parsed diff between a and b carries the line of a, of b or of both that its numbers name. */
  lemma ParsedRowsShowTheirLines(ps: seq<Piece>, a: seq<string>, b: seq<string>)
    requires WellFormed(ps) && Diffs(ps, a, b, 0, 0)
    ensures forall row <- Parsed(PatchText(ps)) :: Shows(row, a, b)
  {
    RenderedDiffReadsBack(ps);
    PatchRowsShow(ps, a, b, 0, 0);
  }

  /**
    Applying rows to the old side: what a row does not mention is copied, up to the number it
    carries. None if a row names a line that is not there or shows another text.
  */
  function Apply(a: seq<string>, rows: seq<Row>, pos: nat, out: seq<string>): Option<seq<string>>
    requires pos <= |a|
    decreases |rows|
  {
    if rows == [] then Some(out + a[pos..])
    else
      var row, rest := rows[0], rows[1..];
      if row.oldLine.Some? then
        var at: int := row.oldLine.value - 1;
        if !(pos <= at < |a|) || a[at] != row.text then None
        else Apply(a, rest, at + 1, out + a[pos..at] + if row.newLine.Some? then [row.text] else [])
      else if row.newLine.Some? then
        var to: int := pos + row.newLine.value - 1 - |out|;
        if !(pos <= to <= |a|) then None else Apply(a, rest, to, out + a[pos..to] + [row.text])
      else Apply(a, rest, pos, out)
  }

  /** What is written so far is b's, and up to o in a and n in b the rest is common. */
  ghost predicate Synced(a: seq<string>, b: seq<string>, o: nat, n: nat, pos: nat, out: seq<string>) {
    && pos <= o <= |a| && |out| <= n <= |b|
    && out == b[..|out|] && a[pos..o] == b[|out|..n]
  }

  /** One row applied: the copying catches up, and the two sides stay in step. */
  lemma RowApplies(line: Line, rest: seq<Row>, a: seq<string>, b: seq<string>,
                  o: nat, n: nat, pos: nat, out: seq<string>)
    returns (pos': nat, out': seq<string>)
    requires Synced(a, b, o, n, pos, out)
    requires InOld(line) ==> o < |a| && a[o] == line.text
    requires InNew(line) ==> n < |b| && b[n] == line.text
    ensures Synced(a, b, OldAfter(line, o), NewAfter(line, n), pos', out')
    ensures Apply(a, [LineRow(line, o, n)] + rest, pos, out) == Apply(a, rest, pos', out')
  {
    assert ([LineRow(line, o, n)] + rest)[1..] == rest;
    if line.NoNewline? { return pos, out; }
    var w := out + a[pos..o] + if InNew(line) then [line.text] else [];
    return OldAfter(line, o), w;
  }

  lemma FirstApplies(lines: seq<Line>, rest: seq<Row>, a: seq<string>, b: seq<string>,
                  o: nat, n: nat, pos: nat, out: seq<string>)
    returns (pos': nat, out': seq<string>)
    requires lines != [] && Stand(lines, a, b, o, n) && Synced(a, b, o, n, pos, out)
    ensures var o', n' := OldAfter(lines[0], o), NewAfter(lines[0], n);
            && Stand(lines[1..], a, b, o', n') && Synced(a, b, o', n', pos', out')
            && Apply(a, LineRows(lines, o, n) + rest, pos, out)
               == Apply(a, LineRows(lines[1..], o', n') + rest, pos', out')
  {
    var line := lines[0];
    var more := LineRows(lines[1..], OldAfter(line, o), NewAfter(line, n)) + rest;
    StandTail(lines, a, b, o, n);
    assert LineRows(lines, o, n) + rest == [LineRow(line, o, n)] + more;
    pos', out' := RowApplies(line, more, a, b, o, n, pos, out);
  }

  lemma SidesCons(lines: seq<Line>, o: nat, n: nat)
    requires lines != []
    ensures OldAfter(lines[0], o) + |OldSide(lines[1..])| == o + |OldSide(lines)|
    ensures NewAfter(lines[0], n) + |NewSide(lines[1..])| == n + |NewSide(lines)|
  {
  }

  lemma NoLines(lines: seq<Line>, rest: seq<Row>, o: nat, n: nat)
    requires lines == []
    ensures LineRows(lines, o, n) + rest == rest && |OldSide(lines)| == |NewSide(lines)| == 0
  {
  }

  lemma {:induction false} LinesApply(lines: seq<Line>, rest: seq<Row>, a: seq<string>, b: seq<string>,
                  o: nat, n: nat, pos: nat, out: seq<string>)
    returns (pos': nat, out': seq<string>)
    requires Stand(lines, a, b, o, n) && Synced(a, b, o, n, pos, out)
    ensures Synced(a, b, o + |OldSide(lines)|, n + |NewSide(lines)|, pos', out')
    ensures Apply(a, LineRows(lines, o, n) + rest, pos, out) == Apply(a, rest, pos', out')
    decreases |lines|
  {
    if lines == [] {
      NoLines(lines, rest, o, n);
      return pos, out;
    }
    var more, o', n' := lines[1..], OldAfter(lines[0], o), NewAfter(lines[0], n);
    SidesCons(lines, o, n);
    pos', out' := FirstApplies(lines, rest, a, b, o, n, pos, out);
    pos', out' := LinesApply(more, rest, a, b, o', n', pos', out');
  }

  lemma HunkRowApplies(p: Piece, rest: seq<Row>, a: seq<string>, pos: nat, out: seq<string>)
    requires pos <= |a|
    ensures Apply(a, [Row(Hunk, p.header, None, None)] + rest, pos, out) == Apply(a, rest, pos, out)
  {
    assert ([Row(Hunk, p.header, None, None)] + rest)[1..] == rest;
  }

  lemma LastApplies(a: seq<string>, b: seq<string>, o: nat, n: nat, pos: nat, out: seq<string>)
    requires Synced(a, b, o, n, pos, out) && a[o..] == b[n..]
    ensures out + a[pos..] == b
  {
    assert a[pos..] == a[pos..o] + a[o..];
    assert b == b[..|out|] + b[|out|..n] + b[n..];
  }

  lemma {:induction false} PiecesApply(ps: seq<Piece>, a: seq<string>, b: seq<string>,
                  o: nat, n: nat, pos: nat, out: seq<string>)
    requires Diffs(ps, a, b, o, n) && Synced(a, b, o, n, pos, out)
    ensures Apply(a, PatchRows(ps), pos, out) == Some(b)
    decreases |ps|
  {
    if ps == [] {
      LastApplies(a, b, o, n, pos, out);
    } else {
      var p := ps[0];
      SyncGap(a, b, o, n, p.oldAt, p.newAt, pos, out);
      var pos', out' := PieceApplies(p, PatchRows(ps[1..]), a, b, pos, out);
      PiecesApply(ps[1..], a, b, p.oldAt + |OldSide(p.lines)|, p.newAt + |NewSide(p.lines)|, pos', out');
    }
  }

  lemma PieceApplies(p: Piece, rest: seq<Row>, a: seq<string>, b: seq<string>, pos: nat, out: seq<string>)
    returns (pos': nat, out': seq<string>)
    requires Synced(a, b, p.oldAt, p.newAt, pos, out) && Stand(p.lines, a, b, p.oldAt, p.newAt)
    ensures Synced(a, b, p.oldAt + |OldSide(p.lines)|, p.newAt + |NewSide(p.lines)|, pos', out')
    ensures Apply(a, [Row(Hunk, p.header, None, None)] + LineRows(p.lines, p.oldAt, p.newAt) + rest, pos, out)
            == Apply(a, rest, pos', out')
  {
    var rows := LineRows(p.lines, p.oldAt, p.newAt);
    Assoc([Row(Hunk, p.header, None, None)], rows, rest);
    HunkRowApplies(p, rows + rest, a, pos, out);
    pos', out' := LinesApply(p.lines, rest, a, b, p.oldAt, p.newAt, pos, out);
  }

  lemma SyncGap(a: seq<string>, b: seq<string>, o: nat, n: nat, o': nat, n': nat, pos: nat, out: seq<string>)
    requires Synced(a, b, o, n, pos, out) && o <= o' <= |a| && n <= n' <= |b| && a[o..o'] == b[n..n']
    ensures Synced(a, b, o', n', pos, out)
  {
    assert a[pos..o'] == a[pos..o] + a[o..o'];
    assert b[|out|..n'] == b[|out|..n] + b[n..n'];
  }

  /** The parsed rows are enough to turn the old side into the new one. */
  lemma ParsedRowsApply(ps: seq<Piece>, a: seq<string>, b: seq<string>)
    requires WellFormed(ps) && Diffs(ps, a, b, 0, 0)
    ensures Apply(a, Parsed(PatchText(ps)), 0, []) == Some(b)
  {
    RenderedDiffReadsBack(ps);
    PiecesApply(ps, a, b, 0, 0, 0, []);
  }
}
