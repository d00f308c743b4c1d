/**
  What a link destination that names a run looks like, as a grammar, and that the rewrite
  reads exactly that: the name, its escapes undone, and where the destination ends.
*/
module NoteDestinations {
  import opened Options
  import opened JsText
  import opened Notes
  import opened Sequences

  /** A character of a bare destination, written as it is or behind a backslash. */
  datatype Item = Plain(ch: char) | Escaped(ch: char)

  function Text(items: seq<Item>): string {
    if items == [] then "" else
      (match items[0]
       case Plain(ch) => [ch]
       case Escaped(ch) => ['\\', ch]) + Text(items[1..])
  }

  /** The name the items spell: an escaped character stands for itself. */
  function Name(items: seq<Item>): string {
    if items == [] then "" else [items[0].ch] + Name(items[1..])
  }

  predicate Punctuation(ch: char) {
    ch == '(' || ch == ')' || ch == '\\'
  }

  /**
    The items are a bare destination that ends before `rest`, inside `depth` open parentheses:
    only parentheses and backslashes are escaped, a backslash that escapes nothing stands
    before none of them, plain parentheses close no more than they open, and the destination
    ends at white space, at a parenthesis it did not open, or with the text.
  */
  predicate Written(items: seq<Item>, depth: nat, rest: string) {
    if items == [] then rest == "" || Space(rest[0]) || (rest[0] == ')' && depth == 0)
    else
      match items[0]
      case Escaped(ch) => Punctuation(ch) && Written(items[1..], depth, rest)
      case Plain(ch) =>
        && !Space(ch)
        && (ch == '\\' ==> var next := Text(items[1..]) + rest; next == "" || !Punctuation(next[0]))
        && (ch == ')' ==> depth > 0)
        && Written(items[1..], if ch == '(' then depth + 1 else if ch == ')' then depth - 1 else depth, rest)
  }

  /** raw is the name of the bare destination s[from..end]. */
  ghost predicate BareDestination(s: string, from: nat, end: nat, raw: string) {
    && from <= end <= |s|
    && exists items :: Text(items) == s[from..end] && Name(items) == raw && Written(items, 0, s[end..])
  }

  /** raw is the text in the angle brackets that end with s[end - 1]. */
  predicate AngledDestination(s: string, from: nat, end: nat, raw: string) {
    && from < end <= |s| && s[from..end - 1] == raw && s[end - 1] == '>'
    && '<' !in raw && '>' !in raw && '\n' !in raw
  }

  lemma TextSplits(s: string, i: nat, items: seq<Item>, rest: string)
    requires items != [] && i <= |s| && s[i..] == Text(items) + rest
    ensures var w := if items[0].Escaped? then 2 else 1;
            && i + w <= |s| && s[i + w..] == Text(items[1..]) + rest && |Text(items)| == w + |Text(items[1..])|
            && s[i + w - 1] == items[0].ch && (w == 2 ==> s[i] == '\\')
            && Name(items) == [items[0].ch] + Name(items[1..])
  {
    var w := if items[0].Escaped? then 2 else 1;
    var tail := Text(items[1..]) + rest;
    assert s[i..] == (if w == 2 then ['\\', items[0].ch] else [items[0].ch]) + tail;
    assert |s[i..]| == w + |tail| && s[i..][w..] == tail;
    assert s[i..][w - 1] == items[0].ch && s[i..][0] == s[i] && s[i..][w - 1] == s[i + w - 1];
  }

  lemma {:induction false} WrittenIsRead(s: string, i: nat, depth: nat, raw: string, items: seq<Item>, rest: string)
    requires i <= |s| && s[i..] == Text(items) + rest && Written(items, depth, rest)
    ensures Bare(s, i, depth, raw) == Dest(raw + Name(items), i + |Text(items)|)
    decreases |items|
  {
    if items == [] {
      assert raw + "" == raw && s[i..] == rest;
      assert rest != "" ==> s[i] == rest[0];
    } else {
      TextSplits(s, i, items, rest);
      var ch := items[0].ch;
      assert raw + [ch] + Name(items[1..]) == raw + Name(items);
      if items[0].Escaped? {
        WrittenIsRead(s, i + 2, depth, raw + [ch], items[1..], rest);
      } else {
        var next := Text(items[1..]) + rest;
        assert next != "" ==> s[i + 1] == next[0];
        WrittenIsRead(s, i + 1, Deeper(depth, ch), raw + [ch], items[1..], rest);
      }
    }
  }

  lemma Peel(s: string, i: nat, end: nat)
    requires i < end <= |s|
    ensures s[i..end] == [s[i]] + s[i + 1..end] && s[i + 1..end] + s[end..] == s[i + 1..]
  {
  }

  lemma OneMoreEscaped(s: string, i: nat, end: nat, depth: nat, more: seq<Item>)
    requires Escape(s, i) && i + 2 <= end <= |s| && s[i + 2..end] == Text(more) && Written(more, depth, s[end..])
    ensures var items := [Escaped(s[i + 1])] + more;
            Text(items) == s[i..end] && Name(items) == [s[i + 1]] + Name(more) && Written(items, depth, s[end..])
  {
    var items := [Escaped(s[i + 1])] + more;
    assert items[1..] == more;
    Peel(s, i, end);
    Peel(s, i + 1, end);
    assert ['\\', s[i + 1]] + s[i + 2..end] == [s[i]] + ([s[i + 1]] + s[i + 2..end]);
  }

  lemma OneMorePlain(s: string, i: nat, end: nat, depth: nat, more: seq<Item>)
    requires i < end <= |s| && !Escape(s, i) && !Stops(s[i], depth) && s[i + 1..end] == Text(more)
    requires Written(more, Deeper(depth, s[i]), s[end..])
    ensures var items := [Plain(s[i])] + more;
            Text(items) == s[i..end] && Name(items) == [s[i]] + Name(more) && Written(items, depth, s[end..])
  {
    var items := [Plain(s[i])] + more;
    assert items[1..] == more;
    Peel(s, i, end);
    var next := Text(more) + s[end..];
    assert next == s[i + 1..] && (next != "" ==> next[0] == s[i + 1]);
  }

  lemma {:induction false} ReadIsWritten(s: string, i: nat, depth: nat, raw: string) returns (items: seq<Item>)
    requires i <= |s|
    ensures var d := Bare(s, i, depth, raw);
            d.raw == raw + Name(items) && s[i..d.end] == Text(items) && Written(items, depth, s[d.end..])
    decreases |s| - i
  {
    var end := Bare(s, i, depth, raw).end;
    if i == |s| {
      items := [];
    } else if Escape(s, i) {
      var more := ReadIsWritten(s, i + 2, depth, raw + [s[i + 1]]);
      OneMoreEscaped(s, i, end, depth, more);
      items := [Escaped(s[i + 1])] + more;
      assert raw + [s[i + 1]] + Name(more) == raw + ([s[i + 1]] + Name(more));
    } else if Stops(s[i], depth) {
      items := [];
    } else {
      var more := ReadIsWritten(s, i + 1, Deeper(depth, s[i]), raw + [s[i]]);
      OneMorePlain(s, i, end, depth, more);
      items := [Plain(s[i])] + more;
      assert raw + [s[i]] + Name(more) == raw + ([s[i]] + Name(more));
    }
  }

  lemma BareReadExactlyWhen(s: string, from: nat, end: nat, raw: string)
    requires from <= |s|
    ensures Bare(s, from, 0, "") == Dest(raw, end) <==> BareDestination(s, from, end, raw)
  {
    if BareDestination(s, from, end, raw) {
      var items :| Text(items) == s[from..end] && Name(items) == raw && Written(items, 0, s[end..]);
      assert s[from..] == s[from..end] + s[end..];
      WrittenIsRead(s, from, 0, "", items, s[end..]);
    } else if Bare(s, from, 0, "") == Dest(raw, end) {
      var items := ReadIsWritten(s, from, 0, "");
    }
  }

  /** Before `end` no bracket closes, so the search ends there. */
  lemma ClosesAt(s: string, start: nat, end: nat)
    requires start < end <= |s| && s[end - 1] == '>' && '>' !in s[start..end - 1]
    ensures Find(s, ">", start) == Some(end - 1)
  {
    FindIsFirst(s, ">", start);
    AtChar(s, '>', end - 1);
    var close := Find(s, ">", start).value;
    AtChar(s, '>', close);
    forall k | start <= k < end - 1 ensures s[k] != '>' { assert s[k] == s[start..end - 1][k - start]; }
  }

  lemma NoneBefore(s: string, start: nat, close: nat)
    requires Find(s, ">", start) == Some(close)
    ensures close < |s| && s[close] == '>' && '>' !in s[start..close]
  {
    FindIsFirst(s, ">", start);
    AtChar(s, '>', close);
    if i :| 0 <= i < close - start && s[start..close][i] == '>' { AtChar(s, '>', start + i); }
  }

  lemma AngledIsRead(s: string, start: nat, end: nat, raw: string)
    requires At(s, ANGLED, start) && AngledDestination(s, start + 5, end, raw)
    ensures ReadDest(s, start) == Some(Dest(raw, end))
  {
    assert s[start..end - 1] == s[start..start + 5] + s[start + 5..end - 1];
    ClosesAt(s, start, end);
  }

  lemma ReadIsAngled(s: string, start: nat)
    requires At(s, ANGLED, start) && ReadDest(s, start).Some?
    ensures var d := ReadDest(s, start).value; AngledDestination(s, start + 5, d.end, d.raw)
  {
    var end := ReadDest(s, start).value.end;
    NoneBefore(s, start, end - 1);
    AngledHead(s, start, end - 1);
    assert s[start..end - 1] == s[start..start + 5] + s[start + 5..end - 1];
  }

  lemma AngledReadExactlyWhen(s: string, start: nat, end: nat, raw: string)
    requires At(s, ANGLED, start)
    ensures ReadDest(s, start) == Some(Dest(raw, end)) <==> AngledDestination(s, start + 5, end, raw)
  {
    if AngledDestination(s, start + 5, end, raw) { AngledIsRead(s, start, end, raw); }
    if ReadDest(s, start).Some? { ReadIsAngled(s, start); }
  }

  /**
    What the rewrite takes for a destination that names a run: after `run:` the longest bare
    destination, read with its escapes undone; after `<run:` the text up to the bracket that
    closes it; and nothing else.
  */
  lemma DestinationIsReadExactlyWhen(s: string, start: nat, raw: string, end: nat)
    ensures ReadDest(s, start) == Some(Dest(raw, end)) <==>
            || (At(s, "run:", start) && BareDestination(s, start + 4, end, raw))
            || (At(s, "<run:", start) && AngledDestination(s, start + 5, end, raw))
  {
    AtFirst(s, SCHEME, start);
    AtFirst(s, ANGLED, start);
    if At(s, ANGLED, start) {
      AngledReadExactlyWhen(s, start, end, raw);
    } else if At(s, SCHEME, start) {
      BareReadExactlyWhen(s, start + 4, end, raw);
    }
  }

  // ------------------------------------------------------- where a destination begins

  /** Behind the bracket of a link exactly the spaces and tabs are passed over. */
  lemma {:induction false} BlanksArePassed(s: string, at: nat, k: nat)
    requires at <= |s|
    ensures SkipBlanks(s, at) == k <==>
            && at <= k <= |s| && (forall j :: at <= j < k ==> s[j] == ' ' || s[j] == '\t')
            && (k == |s| || (s[k] != ' ' && s[k] != '\t'))
    decreases |s| - at
  {
    if at < |s| && Blank(s[at]) { BlanksArePassed(s, at + 1, k); }
  }

  /** A reference definition: at most three spaces, a label, a destination, and the rest of the line. */
  datatype Reference = Reference(indent: string, name: string, blanks: string, dest: string, tail: string) {
    function Head(): string {
      indent + ("[" + (name + ("]:" + blanks)))
    }

    function Line(): string {
      Head() + (dest + tail)
    }

    predicate ProperHead() {
      && |indent| <= 3 && (forall ch <- indent :: ch == ' ')
      && name != "" && ']' !in name
      && (forall ch <- blanks :: ch == ' ' || ch == '\t')
    }

    predicate ProperTail() {
      forall ch <- tail :: ch != '\n' && ch != '\r' && ch != '\U{2028}' && ch != '\U{2029}'
    }

    predicate Proper() {
      ProperHead() && (AngledText() || BareText()) && ProperTail()
    }

    /** <run:...> */
    predicate AngledText() {
      && |dest| > 5 && dest[..5] == "<run:" && dest[|dest| - 1] == '>'
      && '<' !in dest[5..|dest| - 1] && '>' !in dest[5..|dest| - 1]
    }

    /** run: and what follows it up to white space */
    predicate BareText() {
      && |dest| > 4 && dest[..4] == "run:" && (forall ch <- dest[4..] :: !Space(ch))
      && (tail == "" || Space(tail[0]))
    }
  }

  /** Where the parts of a definition stand. */
  lemma PartsStand(r: Reference)
    ensures var line, k := r.Line(), |r.indent|;
            var c := k + 1 + |r.name|;
            var start := c + 2 + |r.blanks|;
            var end := start + |r.dest|;
            && |r.Head()| == start && |line| == end + |r.tail|
            && line[..k] == r.indent && line[k] == '[' && line[k + 1..c] == r.name && line[c..c + 2] == "]:"
            && line[c + 2..start] == r.blanks && line[start..end] == r.dest && line[end..] == r.tail
  {
  }

  lemma PartsOf(line: string, k: nat, c: nat, start: nat, end: nat)
    requires k < c && c + 2 <= start <= end <= |line| && line[k] == '[' && line[c..c + 2] == "]:"
    ensures var r := Reference(line[..k], line[k + 1..c], line[c + 2..start], line[start..end], line[end..]);
            r.Line() == line && |r.Head()| == start
  {
    var r := Reference(line[..k], line[k + 1..c], line[c + 2..start], line[start..end], line[end..]);
    assert line == line[..k] + (["["[0]] + (line[k + 1..c] + (line[c..c + 2] + line[c + 2..])));
    assert line[c + 2..] == line[c + 2..start] + (line[start..end] + line[end..]);
  }

  // ------------------------------------------------------------- how it is read

  lemma IndentIs(line: string, k: nat)
    ensures RunEnd(line, 0, ' ') == k <==>
            k <= |line| && (forall ch <- line[..k] :: ch == ' ') && (k == |line| || line[k] != ' ')
  {
    RunEndIs(line, 0, ' ');
    var e := RunEnd(line, 0, ' ');
    if k <= |line| && (forall ch <- line[..k] :: ch == ' ') && (k == |line| || line[k] != ' ') {
      forall j | 0 <= j < k ensures line[j] == ' ' { assert line[..k][j] in line[..k]; }
    }
  }

  lemma NameEndIs(line: string, from: nat, c: nat)
    requires from <= |line|
    ensures Find(line, "]", from) == Some(c) <==> from <= c < |line| && line[c] == ']' && ']' !in line[from..c]
  {
    FindIsFirst(line, "]", from);
    AtChar(line, ']', c);
    var f := Find(line, "]", from);
    if f.Some? {
      AtChar(line, ']', f.value);
      forall j | from <= j < f.value ensures line[j] != ']' { AtChar(line, ']', j); }
    }
    if from <= c < |line| && line[c] == ']' && ']' !in line[from..c] {
      forall j | from <= j < c ensures line[j] != ']' { assert line[j] == line[from..c][j - from]; }
    }
  }

  lemma {:induction false} NonSpaceEndIs(s: string, i: nat, k: nat)
    requires i <= |s|
    ensures NonSpaceEnd(s, i) == k <==>
            i <= k <= |s| && (forall ch <- s[i..k] :: !Space(ch)) && (k == |s| || Space(s[k]))
    decreases |s| - i
  {
    if i < |s| && !Space(s[i]) {
      NonSpaceEndIs(s, i + 1, k);
      if i < k <= |s| { assert s[i..k] == [s[i]] + s[i + 1..k]; }
    }
  }

  lemma BareEndIs(line: string, start: nat, end: nat)
    requires At(line, SCHEME, start)
    ensures DefinitionEnd(line, start) == Some(end) <==>
            start + 4 < end <= |line| && (forall ch <- line[start + 4..end] :: !Space(ch))
            && (end == |line| || Space(line[end]))
  {
    AtFirst(line, SCHEME, start);
    AtFirst(line, ANGLED, start);
    NonSpaceEndIs(line, start + 4, end);
  }

  lemma AngledEndIs(line: string, start: nat, end: nat)
    requires At(line, ANGLED, start)
    ensures DefinitionEnd(line, start) == Some(end) <==>
            start + 5 < end <= |line| && line[end - 1] == '>'
            && '<' !in line[start + 5..end - 1] && '>' !in line[start + 5..end - 1]
  {
    if DefinitionEnd(line, start) == Some(end) {
      NoneBefore(line, start + 5, end - 1);
    } else if start + 5 < end <= |line| && line[end - 1] == '>'
              && '<' !in line[start + 5..end - 1] && '>' !in line[start + 5..end - 1] {
      ClosesAt(line, start + 5, end);
    }
  }

  lemma Subslice(s: string, i: nat, j: nat, a: nat, b: nat)
    requires i <= j <= |s| && a <= b <= j - i
    ensures s[i..j][a..b] == s[i + a..i + b]
  {
    var t, u := s[i..j][a..b], s[i + a..i + b];
    assert |t| == |u| && forall k :: 0 <= k < |t| ==> t[k] == u[k];
  }

  lemma AngledTextIs(r: Reference, line: string, start: nat, end: nat)
    requires start + |r.dest| == end <= |line| && line[start..end] == r.dest
    ensures r.AngledText() <==> At(line, ANGLED, start) && DefinitionEnd(line, start) == Some(end)
  {
    if |r.dest| > 5 {
      Subslice(line, start, end, 0, 5);
      assert r.dest[..5] == r.dest[0..5];
      Subslice(line, start, end, 5, end - start - 1);
      assert r.dest[5..|r.dest| - 1] == line[start + 5..end - 1] && r.dest[|r.dest| - 1] == line[end - 1];
    }
    if At(line, ANGLED, start) { AngledEndIs(line, start, end); }
  }

  lemma BareTextIs(r: Reference, line: string, start: nat, end: nat)
    requires start + |r.dest| == end <= |line| && line[start..end] == r.dest && line[end..] == r.tail
    ensures r.BareText() <==> At(line, SCHEME, start) && DefinitionEnd(line, start) == Some(end)
  {
    if |r.dest| > 4 {
      Subslice(line, start, end, 0, 4);
      assert r.dest[..4] == r.dest[0..4] && r.dest[4..] == r.dest[4..|r.dest|];
      Subslice(line, start, end, 4, |r.dest|);
    }
    assert r.tail != "" ==> r.tail[0] == line[end];
    if At(line, SCHEME, start) { BareEndIs(line, start, end); }
  }

  /** The head of a line is that of a definition with these parts. */
  ghost predicate HeadStands(line: string, k: nat, c: nat, start: nat) {
    && k < c && c + 2 <= start <= |line| && k <= 3
    && (forall ch <- line[..k] :: ch == ' ') && line[k] == '[' && k + 1 < c && ']' !in line[k + 1..c]
    && line[c..c + 2] == "]:" && SkipBlanks(line, c + 2) == start
  }

  /** The whole line is. */
  ghost predicate Stands(line: string, k: nat, c: nat, start: nat, end: nat) {
    && HeadStands(line, k, c, start) && DefinitionEnd(line, start) == Some(end)
    && !exists ch <- line[end..] :: LineTerminator(ch)
  }

  lemma HeadIsFound(line: string, k: nat, c: nat, start: nat)
    requires HeadStands(line, k, c, start)
    ensures RunEnd(line, 0, ' ') == k && Find(line, "]", k + 1) == Some(c) && At(line, "]:", c)
  {
    IndentIs(line, k);
    assert line[c] == line[c..c + 2][0] == ']';
    NameEndIs(line, k + 1, c);
  }

  lemma StandingIsFound(line: string, k: nat, c: nat, start: nat, end: nat)
    requires Stands(line, k, c, start, end)
    ensures Definition(line) == Some(Range(start, end))
  {
    HeadIsFound(line, k, c, start);
  }

  lemma FoundStands(line: string) returns (k: nat, c: nat)
    requires Definition(line).Some?
    ensures var def := Definition(line).value; Stands(line, k, c, def.start, def.end)
  {
    k := RunEnd(line, 0, ' ');
    IndentIs(line, k);
    c := Find(line, "]", k + 1).value;
    NameEndIs(line, k + 1, c);
  }

  /** The parts of a line, and where they stand in it. */
  ghost predicate Cut(r: Reference, line: string, k: nat, c: nat, start: nat, end: nat) {
    && k < c && c + 2 <= start <= end <= |line| && line[k] == '[' && line[c..c + 2] == "]:"
    && r == Reference(line[..k], line[k + 1..c], line[c + 2..start], line[start..end], line[end..])
  }

  lemma CutHead(r: Reference, line: string, k: nat, c: nat, start: nat, end: nat)
    requires Cut(r, line, k, c, start, end)
    requires start < |line| ==> line[start] != ' ' && line[start] != '\t'
    ensures HeadStands(line, k, c, start) <==> r.ProperHead()
  {
    BlanksArePassed(line, c + 2, start);
    forall j | c + 2 <= j < start ensures line[j] in r.blanks { assert line[j] == r.blanks[j - c - 2]; }
  }

  /** A destination does not begin with a blank. */
  lemma DestinationBegins(line: string, start: nat)
    requires At(line, ANGLED, start) || At(line, SCHEME, start)
    ensures line[start] != ' ' && line[start] != '\t'
  {
    AtFirst(line, ANGLED, start);
    AtFirst(line, SCHEME, start);
  }

  lemma TailHasNone(r: Reference)
    ensures r.ProperTail() <==> !exists ch <- r.tail :: LineTerminator(ch)
  {
  }

  lemma CutStands(r: Reference, line: string, k: nat, c: nat, start: nat, end: nat)
    requires Cut(r, line, k, c, start, end)
    ensures r.Proper() <==> Stands(line, k, c, start, end)
  {
    AngledTextIs(r, line, start, end);
    BareTextIs(r, line, start, end);
    TailHasNone(r);
    if At(line, ANGLED, start) || At(line, SCHEME, start) {
      DestinationBegins(line, start);
      CutHead(r, line, k, c, start, end);
    }
  }

  /** The line is this definition, its destination from start to end. */
  predicate Refers(r: Reference, line: string, start: nat, end: nat) {
    r.Line() == line && r.Proper() && |r.Head()| == start && start + |r.dest| == end
  }

  lemma ReferenceIsCut(r: Reference) returns (k: nat, c: nat)
    ensures Cut(r, r.Line(), k, c, |r.Head()|, |r.Head()| + |r.dest|)
  {
    PartsStand(r);
    k := |r.indent|;
    c := k + 1 + |r.name|;
  }

  lemma CutIsReference(r: Reference, line: string, k: nat, c: nat, start: nat, end: nat)
    requires Cut(r, line, k, c, start, end) && r.Proper()
    ensures Refers(r, line, start, end)
  {
    PartsOf(line, k, c, start, end);
  }

  lemma ReferenceIsRead(r: Reference, line: string, start: nat, end: nat)
    requires Refers(r, line, start, end)
    ensures Definition(line) == Some(Range(start, end))
  {
    var k, c := ReferenceIsCut(r);
    CutStands(r, line, k, c, start, end);
    StandingIsFound(line, k, c, start, end);
  }

  lemma ReadIsReference(line: string) returns (r: Reference)
    requires Definition(line).Some?
    ensures var def := Definition(line).value; Refers(r, line, def.start, def.end)
  {
    var k, c := FoundStands(line);
    var def := Definition(line).value;
    r := Reference(line[..k], line[k + 1..c], line[c + 2..def.start], line[def.start..def.end], line[def.end..]);
    CutStands(r, line, k, c, def.start, def.end);
    CutIsReference(r, line, k, c, def.start, def.end);
  }

  /** A line is taken for a reference definition, with this destination, exactly when it has that form. */
  lemma DefinitionIsReadExactlyWhen(line: string, start: nat, end: nat)
    ensures Definition(line) == Some(Range(start, end)) <==> exists r :: Refers(r, line, start, end)
  {
    if Definition(line) == Some(Range(start, end)) {
      var r := ReadIsReference(line);
    } else if r :| Refers(r, line, start, end) {
      ReferenceIsRead(r, line, start, end);
    }
  }

  // --------------------------------------------------------- what is written instead

  lemma {:induction false} OutputAppends(s: string, ps: seq<Piece>, qs: seq<Piece>, l: Linker)
    ensures Output(s, ps + qs, l) == Output(s, ps, l) + Output(s, qs, l)
    decreases |qs|
  {
    if qs == [] {
      assert ps + qs == ps;
    } else {
      var front, q := qs[..|qs| - 1], qs[|qs| - 1];
      OutputAppends(s, ps, front, l);
      Unsnoc(qs);
      Assoc(ps, front, [q]);
      OutputSnoc(s, ps + front, q, l);
      OutputSnoc(s, front, q, l);
      Assoc(Output(s, ps, l), Output(s, front, l), Shown(s, q, l));
    }
  }

  /** j is the first bracket of a link in s, and behind it and its blanks the destination of a run stands at k. */
  ghost predicate LinksFirst(s: string, j: nat, k: nat, raw: string, end: nat) {
    && At(s, "](", j) && (forall i: nat :: i < j ==> !At(s, "](", i))
    && j + 2 <= k <= |s| && (forall i :: j + 2 <= i < k ==> s[i] == ' ' || s[i] == '\t')
    && ((At(s, "run:", k) && BareDestination(s, k + 4, end, raw))
        || (At(s, "<run:", k) && AngledDestination(s, k + 5, end, raw)))
  }

  lemma FirstIsHit(s: string, j: nat, k: nat, raw: string, end: nat, l: Linker)
    requires LinksFirst(s, j, k, raw, end) && l.decode(raw) != ""
    ensures k < end <= |s| && NextHit(s, 0, l) == Some(Hit(k, Dest(raw, end)))
  {
    FindIsFirst(s, "](", 0);
    assert Find(s, "](", 0) == Some(j);
    DestinationBegins(s, k);
    BlanksArePassed(s, j + 2, k);
    DestinationIsReadExactlyWhen(s, k, raw, end);
  }

  /**
    What a rewritten link becomes: the text up to its destination, then in angle brackets the link
    of the decoded name, then the rest, rewritten from the destination's end on.
  */
  lemma FirstLinkIsRewritten(s: string, j: nat, k: nat, raw: string, end: nat, l: Linker)
    requires LinksFirst(s, j, k, raw, end) && l.decode(raw) != ""
    ensures k < end <= |s|
    ensures InlineOut(s, l) == s[..k] + ("<" + l.href(l.decode(raw)) + ">") + Output(s, Inline(s, end, l), l)
  {
    FirstIsHit(s, j, k, raw, end, l);
    var first := [Kept(0, k), Linked(k, end, raw)];
    OutputAppends(s, first, Inline(s, end, l), l);
    assert [] + first == first && Output(s, [], l) == "";
    OutputHit(s, [], 0, k, end, raw, l);
    assert "" + s[0..k] == s[..k];
  }

  /** The name a definition's destination spells. */
  ghost predicate NamesRun(dest: string, raw: string) {
    exists e: nat :: (At(dest, "run:", 0) && BareDestination(dest, 4, e, raw))
                     || (At(dest, "<run:", 0) && AngledDestination(dest, 5, e, raw))
  }

  lemma NamedIsRead(dest: string, raw: string)
    requires NamesRun(dest, raw)
    ensures ReadDest(dest, 0).Some? && ReadDest(dest, 0).value.raw == raw
  {
    var e: nat :| (At(dest, "run:", 0) && BareDestination(dest, 4, e, raw))
                  || (At(dest, "<run:", 0) && AngledDestination(dest, 5, e, raw));
    DestinationIsReadExactlyWhen(dest, 0, raw, e);
  }

  lemma ReferenceParts(r: Reference, line: string, start: nat, end: nat)
    requires Refers(r, line, start, end)
    ensures end <= |line| && line[..start] == r.Head() && line[start..end] == r.dest && line[end..] == r.tail
  {
    PartsStand(r);
    assert line == r.Head() + (r.dest + r.tail);
  }

  /** A definition line keeps its head and its tail around the link of its name; one whose name is nothing is prose. */
  lemma DefinitionIsRewritten(r: Reference, line: string, start: nat, end: nat, raw: string, l: Linker)
    requires Refers(r, line, start, end) && NamesRun(r.dest, raw)
    ensures LineOut(line, l) ==
            if l.decode(raw) == "" then ProseOut(line, l)
            else r.Head() + ("<" + l.href(l.decode(raw)) + ">") + r.tail
  {
    ReferenceIsRead(r, line, start, end);
    ReferenceParts(r, line, start, end);
    NamedIsRead(r.dest, raw);
    assert NamedDefinition(line, l) ==
           if l.decode(raw) == "" then None else Some(ReadDest(r.dest, 0).value);
  }
}
