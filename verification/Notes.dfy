/**
  The notebook's `run:` link rewrite. It works on Markdown source: link destinations change,
  and fenced blocks, code spans and everything else must come out as they went in.
*/
module Notes {
  import opened Options
  import opened JsText
  import opened Sequences

  const SCHEME: string := "run:"
  const ANGLED: string := "<run:"

  /** s.startsWith(needle, j) */
  predicate At(s: string, needle: string, j: nat) {
    j + |needle| <= |s| && s[j..j + |needle|] == needle
  }

  /** s.indexOf(needle, from) */
  function Find(s: string, needle: string, from: nat): (r: Option<nat>)
    ensures r.Some? ==> from <= r.value && At(s, needle, r.value)
    decreases |s| - from
  {
    if At(s, needle, from) then Some(from) else if from >= |s| then None else Find(s, needle, from + 1)
  }

  lemma {:induction false} FindIsFirst(s: string, needle: string, from: nat)
    ensures var r := Find(s, needle, from);
            forall j: nat :: from <= j && (r.None? || j < r.value) ==> !At(s, needle, j)
    decreases |s| - from
  {
    if !At(s, needle, from) && from < |s| { FindIsFirst(s, needle, from + 1); }
  }

  // ------------------------------------------------------------ destinations

  /** A destination: the run name as written, escapes undone, and where the destination ends. */
  datatype Dest = Dest(raw: string, end: nat)

  predicate Escapable(ch: char) { ch == '(' || ch == ')' || ch == '\\' }

  predicate Blank(ch: char) { ch == ' ' || ch == '\t' }

  /** A backslash that escapes stands at i. */
  predicate Escape(s: string, i: nat) {
    i + 1 < |s| && s[i] == '\\' && Escapable(s[i + 1])
  }

  /** A bare destination stops at this character. */
  predicate Stops(ch: char, depth: nat) {
    Space(ch) || (ch == ')' && depth == 0)
  }

  function Deeper(depth: nat, ch: char): nat
    requires ch != ')' || depth > 0
  {
    if ch == '(' then depth + 1 else if ch == ')' then depth - 1 else depth
  }

  /** The rest of a bare destination from i, `raw` gathered so far: to white space or an unbalanced parenthesis. */
  function Bare(s: string, i: nat, depth: nat, raw: string): (d: Dest)
    requires i <= |s|
    ensures i <= d.end <= |s|
    ensures |d.raw| <= |raw| + d.end - i && (d.end == i ==> d.raw == raw)
    decreases |s| - i
  {
    if i == |s| then Dest(raw, i)
    else if Escape(s, i) then Bare(s, i + 2, depth, raw + [s[i + 1]])
    else if Stops(s[i], depth) then Dest(raw, i)
    else Bare(s, i + 1, Deeper(depth, s[i]), raw + [s[i]])
  }

  /** The run destination that stands at `start`, if one does. */
  function ReadDest(s: string, start: nat): (d: Option<Dest>)
    ensures d.Some? ==> start + 4 <= d.value.end <= |s| && (At(s, SCHEME, start) || At(s, ANGLED, start))
  {
    if At(s, ANGLED, start) then
      var close := Find(s, ">", start);
      if close.None? then None
      else
        assert close.value >= start + 5 by { AngledHead(s, start, close.value); }
        var raw := s[start + 5..close.value];
        if '<' in raw || '\n' in raw then None else Some(Dest(raw, close.value + 1))
    else if At(s, SCHEME, start) then Some(Bare(s, start + 4, 0, ""))
    else None
  }

  lemma AngledHead(s: string, start: nat, close: nat)
    requires At(s, ANGLED, start) && At(s, ">", close) && start <= close
    ensures start + 5 <= close
  {
    assert s[close] == s[close..close + 1][0] == '>';
    assert forall k :: 0 <= k < 5 ==> s[start + k] == s[start..start + 5][k] == ANGLED[k];
  }

  /** Where the blanks from `at` end. */
  function SkipBlanks(s: string, at: nat): (k: nat)
    requires at <= |s|
    ensures at <= k <= |s|
    decreases |s| - at
  {
    if at < |s| && Blank(s[at]) then SkipBlanks(s, at + 1) else at
  }

  // ------------------------------------------------------------------- prose

  /** How run names are decoded and turned into links; both are somebody else's total functions. */
  datatype Linker = Linker(decode: string -> string, href: string -> string)

  function Link(l: Linker, raw: string): string {
    "<" + l.href(l.decode(raw)) + ">"
  }

  /** Where the destination of the link whose `](` stands at j begins. */
  function DestAt(s: string, j: nat): (k: nat)
    requires j + 2 <= |s|
    ensures j + 2 <= k <= |s|
  {
    SkipBlanks(s, j + 2)
  }

  /** A `](` stands at j, and what follows it names a run. */
  predicate Names(s: string, j: nat, l: Linker) {
    && At(s, "](", j)
    && var d := ReadDest(s, DestAt(s, j)); d.Some? && l.decode(d.value.raw) != ""
  }

  /** A destination that names a run: where it begins, and what was read of it. */
  datatype Hit = Hit(start: nat, dest: Dest)

  /** The first `](` at or after `from` that names a run. */
  function NextHit(s: string, from: nat, l: Linker): (h: Option<Hit>)
    ensures h.Some? ==> from + 2 <= h.value.start < h.value.dest.end <= |s|
    decreases |s| - from
  {
    var open := Find(s, "](", from);
    if open.None? then None
    else
      var k := DestAt(s, open.value);
      var d := ReadDest(s, k);
      if d.Some? && l.decode(d.value.raw) != "" then Some(Hit(k, d.value)) else NextHit(s, open.value + 2, l)
  }

  /** A piece s[from..to] of the source: copied, or a destination, with the name it links. */
  datatype Piece = Kept(from: nat, to: nat) | Linked(from: nat, to: nat, raw: string)

  function Shown(s: string, p: Piece, l: Linker): string {
    if p.Linked? then Link(l, p.raw) else if p.from <= p.to <= |s| then s[p.from..p.to] else ""
  }

  function Output(s: string, ps: seq<Piece>, l: Linker): string {
    if ps == [] then "" else Output(s, ps[..|ps| - 1], l) + Shown(s, ps[|ps| - 1], l)
  }

  /** The pieces of a stretch of prose from `from`: a destination swallows any `](` inside it. */
  function Inline(s: string, from: nat, l: Linker): (ps: seq<Piece>)
    requires from <= |s|
    decreases |s| - from
  {
    var h := NextHit(s, from, l);
    if h.None? then [Kept(from, |s|)]
    else [Kept(from, h.value.start), Linked(h.value.start, h.value.dest.end, h.value.dest.raw)]
         + Inline(s, h.value.dest.end, l)
  }

  /**
    What the pieces of s from o must be, said without the scan: each begins where the one before
    it ends, up to the end of s; a linked piece is exactly a destination that names a run, after
    its `](`; and no `](` in a copied piece names a run but the one whose destination comes next.
  */
  ghost predicate Exact(s: string, o: nat, ps: seq<Piece>, l: Linker)
    decreases |ps|
  {
    if ps == [] then o == |s|
    else
      var e := ps[0].to;
      && ps[0].from == o <= e <= |s| && Exact(s, e, ps[1..], l)
      && if ps[0].Kept? then forall j: nat :: o <= j < e && Names(s, j, l) ==>
                   DestAt(s, j) == e && |ps| > 1 && ps[1].Linked?
         else exists j: nat :: Names(s, j, l) && DestAt(s, j) == o && ReadDest(s, o) == Some(Dest(ps[0].raw, e))
  }

  lemma AtFirst(s: string, needle: string, k: nat)
    requires needle != ""
    ensures At(s, needle, k) ==> s[k] == needle[0]
  {
    if At(s, needle, k) { assert s[k] == s[k..k + |needle|][0]; }
  }

  lemma {:induction false} SkipsBlanks(s: string, at: nat)
    requires at <= |s|
    ensures forall j :: at <= j < SkipBlanks(s, at) ==> Blank(s[j])
    decreases |s| - at
  {
    if at < |s| && Blank(s[at]) { SkipsBlanks(s, at + 1); }
  }

  lemma OneBracket(s: string, j: nat, k: nat)
    requires At(s, "](", j) && j < k < DestAt(s, j)
    ensures !At(s, "](", k)
  {
    AtFirst(s, "](", k);
    SkipsBlanks(s, j + 2);
    assert s[j + 1] == s[j..j + 2][1] == '(';
  }

  lemma NamesOnce(s: string, from: nat, j: nat, l: Linker)
    requires Find(s, "](", from) == Some(j)
    ensures forall i: nat :: from <= i < DestAt(s, j) && Names(s, i, l) ==> i == j
  {
    FindIsFirst(s, "](", from);
    forall i: nat | from <= i < DestAt(s, j) && Names(s, i, l) ensures i == j {
      if i > j { OneBracket(s, j, i); }
    }
  }

  /** h is what a search from `from` has to find. */
  ghost predicate IsHit(s: string, from: nat, h: Option<Hit>, l: Linker) {
    if h.None? then forall i: nat :: from <= i ==> !Names(s, i, l)
    else
      && (forall i: nat :: from <= i < h.value.start && Names(s, i, l) ==> DestAt(s, i) == h.value.start)
      && exists j: nat :: Names(s, j, l) && DestAt(s, j) == h.value.start
                          && ReadDest(s, h.value.start) == Some(h.value.dest)
  }

  lemma HitHere(s: string, from: nat, j: nat, l: Linker)
    requires Find(s, "](", from) == Some(j) && Names(s, j, l)
    ensures IsHit(s, from, Some(Hit(DestAt(s, j), ReadDest(s, DestAt(s, j)).value)), l)
  {
    NamesOnce(s, from, j, l);
  }

  lemma HitLater(s: string, from: nat, j: nat, h: Option<Hit>, l: Linker)
    requires Find(s, "](", from) == Some(j) && !Names(s, j, l) && IsHit(s, j + 2, h, l)
    ensures IsHit(s, from, h, l)
  {
    NamesOnce(s, from, j, l);
  }

  lemma HitNone(s: string, from: nat, l: Linker)
    requires Find(s, "](", from).None?
    ensures IsHit(s, from, None, l)
  {
    FindIsFirst(s, "](", from);
  }

  lemma {:induction false} HitIs(s: string, from: nat, l: Linker)
    ensures IsHit(s, from, NextHit(s, from, l), l)
    decreases |s| - from
  {
    var open := Find(s, "](", from);
    if open.None? {
      HitNone(s, from, l);
    } else if Names(s, open.value, l) {
      HitHere(s, from, open.value, l);
    } else {
      HitIs(s, open.value + 2, l);
      HitLater(s, from, open.value, NextHit(s, open.value + 2, l), l);
    }
  }

  /** The rewrite finds every link to a run in a stretch of prose, and changes only their destinations. */
  lemma {:induction false} InlineIsExact(s: string, from: nat, l: Linker)
    requires from <= |s|
    ensures Exact(s, from, Inline(s, from, l), l)
    decreases |s| - from
  {
    var h := NextHit(s, from, l);
    HitIs(s, from, l);
    if h.None? {
      ExactKept(s, from, |s|, [], l);
      assert [Kept(from, |s|)] + [] == [Kept(from, |s|)];
    } else {
      InlineIsExact(s, h.value.dest.end, l);
      ExactHit(s, from, h.value, Inline(s, h.value.dest.end, l), l);
    }
  }

  lemma ExactHit(s: string, from: nat, h: Hit, rest: seq<Piece>, l: Linker)
    requires from <= h.start <= h.dest.end <= |s| && IsHit(s, from, Some(h), l) && Exact(s, h.dest.end, rest, l)
    ensures Exact(s, from, [Kept(from, h.start), Linked(h.start, h.dest.end, h.dest.raw)] + rest, l)
  {
    var linked := Linked(h.start, h.dest.end, h.dest.raw);
    ExactLinked(s, h, rest, l);
    ExactKept(s, from, h.start, [linked] + rest, l);
    assert [Kept(from, h.start)] + ([linked] + rest) == [Kept(from, h.start), linked] + rest;
  }

  lemma ExactKept(s: string, o: nat, e: nat, ps: seq<Piece>, l: Linker)
    requires o <= e <= |s| && Exact(s, e, ps, l)
    requires forall j: nat :: o <= j < e && Names(s, j, l) ==> DestAt(s, j) == e && |ps| > 0 && ps[0].Linked?
    ensures Exact(s, o, [Kept(o, e)] + ps, l)
  {
    assert ([Kept(o, e)] + ps)[1..] == ps;
  }

  lemma ExactLinked(s: string, h: Hit, ps: seq<Piece>, l: Linker)
    requires h.start <= h.dest.end <= |s| && IsHit(s, h.start, Some(h), l) && Exact(s, h.dest.end, ps, l)
    ensures Exact(s, h.start, [Linked(h.start, h.dest.end, h.dest.raw)] + ps, l)
  {
    assert ([Linked(h.start, h.dest.end, h.dest.raw)] + ps)[1..] == ps;
  }

  /** The text those pieces make. */
  function InlineOut(s: string, l: Linker): string {
    Output(s, Inline(s, 0, l), l)
  }

  lemma OutputSnoc(s: string, ps: seq<Piece>, p: Piece, l: Linker)
    ensures Output(s, ps + [p], l) == Output(s, ps, l) + Shown(s, p, l)
  {
    assert (ps + [p])[..|ps|] == ps;
  }

  /** What one more destination adds. */
  lemma OutputHit(s: string, ps: seq<Piece>, a: nat, b: nat, e: nat, raw: string, l: Linker)
    requires a <= b <= |s|
    ensures Output(s, ps + [Kept(a, b), Linked(b, e, raw)], l) == Output(s, ps, l) + s[a..b] + Link(l, raw)
  {
    OutputSnoc(s, ps, Kept(a, b), l);
    OutputSnoc(s, ps + [Kept(a, b)], Linked(b, e, raw), l);
    assert ps + [Kept(a, b)] + [Linked(b, e, raw)] == ps + [Kept(a, b), Linked(b, e, raw)];
  }

  lemma OutputEnd(s: string, ps: seq<Piece>, a: nat, l: Linker)
    requires a <= |s|
    ensures Output(s, ps + [Kept(a, |s|)], l) == Output(s, ps, l) + s[a..]
  {
    OutputSnoc(s, ps, Kept(a, |s|), l);
    assert s[a..|s|] == s[a..];
  }

  method ReadBare(text: string, start: nat) returns (raw: string, i: nat)
    requires start <= |text|
    ensures Bare(text, start, 0, "") == Dest(raw, i)
  {
    var depth := 0;
    i, raw := start, "";
    while i < |text|
      invariant i <= |text| && depth >= 0
      invariant Bare(text, i, depth, raw) == Bare(text, start, 0, "")
    {
      var ch := text[i];
      if ch == '\\' && i + 1 < |text| && Escapable(text[i + 1]) {
        raw, i := raw + [text[i + 1]], i + 2;
        continue;
      }
      if Space(ch) { break; }
      if ch == '(' { depth := depth + 1; }
      if ch == ')' {
        if depth == 0 { break; }
        depth := depth - 1;
      }
      raw, i := raw + [ch], i + 1;
    }
  }

  method ReadRunDestination(text: string, start: nat) returns (d: Option<Dest>)
    ensures d == ReadDest(text, start)
  {
    if At(text, ANGLED, start) {
      var close := Find(text, ">", start);
      if close.None? { return None; }
      AngledHead(text, start, close.value);
      var raw := text[start + 5..close.value];
      if '<' in raw || '\n' in raw { return None; }
      return Some(Dest(raw, close.value + 1));
    }
    if !At(text, SCHEME, start) { return None; }
    var raw, i := ReadBare(text, start + 4);
    return Some(Dest(raw, i));
  }

  /** The scan has written `done` up to the cursor, and has found nothing from there to `from`. */
  ghost predicate Scanned(s: string, cursor: nat, from: nat, done: seq<Piece>, l: Linker) {
    cursor <= from <= |s| && NextHit(s, from, l) == NextHit(s, cursor, l)
    && done + Inline(s, cursor, l) == Inline(s, 0, l)
  }

  lemma ScannedPast(s: string, cursor: nat, from: nat, j: nat, done: seq<Piece>, l: Linker)
    requires Scanned(s, cursor, from, done, l) && Find(s, "](", from) == Some(j)
    requires var d := ReadDest(s, SkipBlanks(s, j + 2)); d.None? || l.decode(d.value.raw) == ""
    ensures Scanned(s, cursor, j + 2, done, l)
  {
  }

  lemma ScannedHit(s: string, cursor: nat, from: nat, j: nat, d: Dest, done: seq<Piece>, l: Linker)
    requires Scanned(s, cursor, from, done, l) && Find(s, "](", from) == Some(j)
    requires ReadDest(s, SkipBlanks(s, j + 2)) == Some(d) && l.decode(d.raw) != ""
    ensures var k := SkipBlanks(s, j + 2);
            && cursor <= k <= d.end <= |s|
            && Scanned(s, d.end, d.end, done + [Kept(cursor, k), Linked(k, d.end, d.raw)], l)
  {
    var k := SkipBlanks(s, j + 2);
    FoundIsHit(s, from, j, d, l);
    Assoc(done, [Kept(cursor, k), Linked(k, d.end, d.raw)], Inline(s, d.end, l));
  }

  lemma FoundIsHit(s: string, from: nat, j: nat, d: Dest, l: Linker)
    requires Find(s, "](", from) == Some(j)
    requires ReadDest(s, SkipBlanks(s, j + 2)) == Some(d) && l.decode(d.raw) != ""
    ensures NextHit(s, from, l) == Some(Hit(SkipBlanks(s, j + 2), d))
  {
  }

  lemma ScannedWhole(s: string, cursor: nat, from: nat, done: seq<Piece>, l: Linker)
    requires Scanned(s, cursor, from, done, l) && Find(s, "](", from).None?
    ensures Output(s, done, l) + s[cursor..] == InlineOut(s, l)
  {
    assert NextHit(s, cursor, l).None? && Inline(s, cursor, l) == [Kept(cursor, |s|)];
    OutputEnd(s, done, cursor, l);
  }

  method RewriteInline(text: string, l: Linker) returns (out: string)
    ensures out == InlineOut(text, l)
  {
    out := "";
    var cursor: nat, from: nat := 0, 0;
    ghost var done: seq<Piece> := [];
    while true
      invariant cursor <= from <= |text| && Scanned(text, cursor, from, done, l) && out == Output(text, done, l)
      decreases |text| - from
    {
      var open := Find(text, "](", from);
      if open.None? {
        ScannedWhole(text, cursor, from, done, l);
        break;
      }
      var start := SkipBlanksFrom(text, open.value + 2);
      var dest := ReadRunDestination(text, start);
      if dest.None? || l.decode(dest.value.raw) == "" {
        ScannedPast(text, cursor, from, open.value, done, l);
        from := open.value + 2;
        continue;
      }
      ScannedHit(text, cursor, from, open.value, dest.value, done, l);
      OutputHit(text, done, cursor, start, dest.value.end, dest.value.raw, l);
      done := done + [Kept(cursor, start), Linked(start, dest.value.end, dest.value.raw)];
      out := out + text[cursor..start] + Link(l, dest.value.raw);
      cursor, from := dest.value.end, dest.value.end;
    }
    out := out + text[cursor..];
  }

  method SkipBlanksFrom(text: string, at: nat) returns (start: nat)
    requires at <= |text|
    ensures start == SkipBlanks(text, at)
  {
    start := at;
    while start < |text| && Blank(text[start])
      invariant start <= |text| && SkipBlanks(text, start) == SkipBlanks(text, at)
    {
      start := start + 1;
    }
  }

  // ------------------------------------------------------------- code spans

  /** Where the run of ch that stands at i ends. */
  function RunEnd(line: string, i: nat, ch: char): (k: nat)
    requires i <= |line|
    ensures i <= k <= |line| && (k == i <==> i == |line| || line[i] != ch)
    decreases |line| - i
  {
    if i < |line| && line[i] == ch then RunEnd(line, i + 1, ch) else i
  }

  lemma {:induction false} RunEndIs(line: string, i: nat, ch: char)
    requires i <= |line|
    ensures var k := RunEnd(line, i, ch);
            (forall j :: i <= j < k ==> line[j] == ch) && (k < |line| ==> line[k] != ch)
    decreases |line| - i
  {
    if i < |line| && line[i] == ch { RunEndIs(line, i + 1, ch); }
  }

  /** A run of exactly n backticks begins at i: neither neighbour is one. */
  predicate IsRun(line: string, i: nat, n: nat) {
    && 1 <= n && i + n <= |line|
    && (forall k :: i <= k < i + n ==> line[k] == '`')
    && (i == 0 || line[i - 1] != '`') && (i + n == |line| || line[i + n] != '`')
  }

  /** The next run of exactly n backticks at or after `from`. */
  function NextRun(line: string, from: nat, n: nat): (r: Option<nat>)
    requires from <= |line|
    ensures r.Some? ==> from <= r.value && 1 <= n && r.value + n <= |line|
    decreases |line| - from
  {
    if IsRun(line, from, n) then Some(from) else if from == |line| then None else NextRun(line, from + 1, n)
  }

  lemma {:induction false} NextRunIs(line: string, from: nat, n: nat)
    requires from <= |line|
    ensures var r := NextRun(line, from, n);
            && (r.Some? ==> IsRun(line, r.value, n))
            && forall j: nat :: from <= j && (r.None? || j < r.value) ==> !IsRun(line, j, n)
    decreases |line| - from
  {
    if !IsRun(line, from, n) && from < |line| { NextRunIs(line, from + 1, n); }
  }

  datatype Segment = Prose(text: string) | Code(text: string)

  /** The line from i, given the prose gathered before it: code spans stand alone. */
  function Segments(line: string, i: nat, text: string): seq<Segment>
    requires i <= |line|
    decreases |line| - i
  {
    if i == |line| then [Prose(text)]
    else if line[i] != '`' then Segments(line, i + 1, text + [line[i]])
    else
      var k := RunEnd(line, i, '`');
      var e := SpanEnd(line, i);
      if e.None? then Segments(line, k, text + line[i..k])
      else [Prose(text), Code(line[i..e.value])] + Segments(line, e.value, "")
  }

  /**
    What the segments of a line from o must be (CommonMark 0.31, section 6.1): laid end to end
    they are the line; a code segment is a run of n backticks through the next run of exactly n;
    and a run in prose has no run of its length after it.
  */
  ghost predicate SpansOk(line: string, o: nat, segments: seq<Segment>)
    decreases |segments|
  {
    if segments == [] then o == |line|
    else
      var e := o + |segments[0].text|;
      && e <= |line| && line[o..e] == segments[0].text && SpansOk(line, e, segments[1..])
      && if segments[0].Code? then exists n: nat :: IsSpan(line, o, e, n)
         else forall i: nat, n: nat :: o <= i < e && IsRun(line, i, n) ==> Unclosed(line, i, n)
  }

  predicate IsSpan(line: string, o: nat, e: nat, n: nat) {
    && IsRun(line, o, n) && o + 2 * n <= e && IsRun(line, e - n, n)
    && forall j: nat :: o + n <= j < e - n ==> !IsRun(line, j, n)
  }

  ghost predicate Unclosed(line: string, i: nat, n: nat) {
    forall j: nat :: i + n <= j ==> !IsRun(line, j, n)
  }

  /** The runs that begin in line[o..i] have no partner: the prose gathered there holds no span. */
  ghost predicate Literal(line: string, o: nat, i: nat) {
    forall j: nat, n: nat :: o <= j < i && IsRun(line, j, n) ==> Unclosed(line, j, n)
  }

  lemma LiteralRun(line: string, o: nat, i: nat)
    requires o <= i < |line| && line[i] == '`' && (i > 0 ==> line[i - 1] != '`')
    requires Literal(line, o, i) && Unclosed(line, i, RunEnd(line, i, '`') - i)
    ensures Literal(line, o, RunEnd(line, i, '`'))
  {
    var k := RunEnd(line, i, '`');
    RunEndIs(line, i, '`');
    forall j: nat, m: nat | i <= j < k && IsRun(line, j, m) ensures j == i && m == k - i {
    }
  }

  lemma SpansOkCode(line: string, o: nat, i: nat, e: nat, n: nat, rest: seq<Segment>)
    requires o <= i <= e <= |line| && Literal(line, o, i) && IsSpan(line, i, e, n) && SpansOk(line, e, rest)
    ensures SpansOk(line, o, [Prose(line[o..i]), Code(line[i..e])] + rest)
  {
    var coded := [Code(line[i..e])] + rest;
    assert coded[1..] == rest;
    assert SpansOk(line, i, coded);
    var all := [Prose(line[o..i]), Code(line[i..e])] + rest;
    assert all[1..] == coded;
  }

  /** Where the code span that opens at i ends, if it closes. */
  function SpanEnd(line: string, i: nat): (e: Option<nat>)
    requires i < |line| && line[i] == '`'
    ensures e.Some? ==> i < e.value <= |line|
  {
    var k := RunEnd(line, i, '`');
    var close := NextRun(line, k, k - i);
    if close.None? then None else Some(close.value + k - i)
  }

  lemma SpanAt(line: string, i: nat)
    requires i < |line| && line[i] == '`' && (i > 0 ==> line[i - 1] != '`')
    ensures var k := RunEnd(line, i, '`');
            var e := SpanEnd(line, i);
            if e.None? then Unclosed(line, i, k - i) else IsSpan(line, i, e.value, k - i)
  {
    var k := RunEnd(line, i, '`');
    RunEndIs(line, i, '`');
    NextRunIs(line, k, k - i);
    assert IsRun(line, i, k - i);
  }

  lemma AfterSpan(line: string, i: nat, e: nat, n: nat)
    requires e <= |line| && IsSpan(line, i, e, n)
    ensures 0 < e && (e < |line| ==> line[e] != '`')
  {
  }

  lemma LiteralChar(line: string, o: nat, i: nat)
    requires o <= i < |line| && line[i] != '`' && Literal(line, o, i)
    ensures Literal(line, o, i + 1)
  {
    assert forall n: nat :: !IsRun(line, i, n);
  }

  lemma SpansOkProse(line: string, o: nat)
    requires o <= |line| && Literal(line, o, |line|)
    ensures SpansOk(line, o, [Prose(line[o..|line|])])
  {
    assert [Prose(line[o..|line|])][1..] == [];
  }

  lemma SpansOkSpan(line: string, o: nat, i: nat, e: nat)
    requires o <= i < e <= |line| && line[i] == '`' && (i > 0 ==> line[i - 1] != '`') && Literal(line, o, i)
    requires SpanEnd(line, i) == Some(e) && SpansOk(line, e, Segments(line, e, ""))
    ensures SpansOk(line, o, Segments(line, i, line[o..i]))
  {
    SpanAt(line, i);
    SpansOkCode(line, o, i, e, RunEnd(line, i, '`') - i, Segments(line, e, ""));
  }

  lemma SpansOkRun(line: string, o: nat, i: nat, k: nat)
    requires o <= i < |line| && line[i] == '`' && SpanEnd(line, i).None?
    requires k == RunEnd(line, i, '`') && SpansOk(line, o, Segments(line, k, line[o..k]))
    ensures SpansOk(line, o, Segments(line, i, line[o..i]))
  {
    assert line[o..i] + line[i..k] == line[o..k];
  }

  lemma SpansOkChar(line: string, o: nat, i: nat)
    requires o <= i < |line| && line[i] != '`' && SpansOk(line, o, Segments(line, i + 1, line[o..i + 1]))
    ensures SpansOk(line, o, Segments(line, i, line[o..i]))
  {
    assert line[o..i] + [line[i]] == line[o..i + 1];
  }

  /** Within one line, and ignoring backslash escapes, every code span is found and nothing else is taken for one. */
  lemma {:induction false} CodeSpansAreFound(line: string, o: nat, i: nat)
    requires o <= i <= |line| && (0 < i < |line| ==> line[i - 1] != '`' || line[i] != '`')
    requires Literal(line, o, i)
    ensures SpansOk(line, o, Segments(line, i, line[o..i]))
    decreases |line| - i
  {
    if i == |line| {
      SpansOkProse(line, o);
    } else if line[i] != '`' {
      LiteralChar(line, o, i);
      CodeSpansAreFound(line, o, i + 1);
      SpansOkChar(line, o, i);
    } else {
      var k := RunEnd(line, i, '`');
      RunEndIs(line, i, '`');
      SpanAt(line, i);
      var e := SpanEnd(line, i);
      if e.None? {
        LiteralRun(line, o, i);
        CodeSpansAreFound(line, o, k);
        SpansOkRun(line, o, i, k);
      } else {
        AfterSpan(line, i, e.value, k - i);
        CodeSpansAreFound(line, e.value, e.value);
        assert line[e.value..e.value] == "";
        SpansOkSpan(line, o, i, e.value);
      }
    }
  }

  /** The text a line's segments make: prose rewritten, code as it stands. */
  function SegmentsOut(segments: seq<Segment>, l: Linker): string {
    if segments == [] then ""
    else (if segments[0].Prose? then InlineOut(segments[0].text, l) else segments[0].text)
         + SegmentsOut(segments[1..], l)
  }

  lemma SpanOut(p: string, c: string, rest: seq<Segment>, l: Linker)
    ensures SegmentsOut([Prose(p), Code(c)] + rest, l) == InlineOut(p, l) + c + SegmentsOut(rest, l)
  {
    assert ([Prose(p), Code(c)] + rest)[1..] == [Code(c)] + rest && ([Code(c)] + rest)[1..] == rest;
  }

  /** "`".repeat(n) */
  function Ticks(n: nat): string {
    seq(n, _ => '`')
  }

  lemma TicksAt(line: string, n: nat, j: nat)
    ensures At(line, Ticks(n), j) <==> j + n <= |line| && forall k :: j <= k < j + n ==> line[k] == '`'
  {
    if At(line, Ticks(n), j) {
      forall k | j <= k < j + n ensures line[k] == '`' { assert line[k] == Ticks(n)[k - j]; }
    }
  }

  lemma NoRunBefore(line: string, from: nat, close: nat, n: nat)
    requires 1 <= n && from <= close && Find(line, Ticks(n), from) == Some(close)
    requires (close + n < |line| && line[close + n] == '`') || (close > 0 && line[close - 1] == '`')
    ensures close < RunEnd(line, close, '`')
    ensures forall j: nat :: from <= j < RunEnd(line, close, '`') ==> !IsRun(line, j, n)
  {
    FindIsFirst(line, Ticks(n), from);
    TicksAt(line, n, close);
    RunEndIs(line, close, '`');
    forall j: nat | from <= j < RunEnd(line, close, '`') ensures !IsRun(line, j, n) {
      TicksAt(line, n, j);
    }
  }

  lemma RunFound(line: string, from: nat, close: Option<nat>, n: nat)
    requires 1 <= n && close == Find(line, Ticks(n), from)
    requires close.Some? ==>
               && (close.value + n < |line| ==> line[close.value + n] != '`')
               && (close.value > 0 ==> line[close.value - 1] != '`')
    ensures close.Some? ==> IsRun(line, close.value, n)
    ensures forall j: nat :: from <= j && (close.None? || j < close.value) ==> !IsRun(line, j, n)
  {
    FindIsFirst(line, Ticks(n), from);
    if close.Some? { TicksAt(line, n, close.value); }
    forall j: nat | from <= j && (close.None? || j < close.value) ensures !IsRun(line, j, n) {
      TicksAt(line, n, j);
    }
  }

  /** The search for the run that closes a code span: indexOf, stepping over longer runs. */
  method CloseRun(line: string, from: nat, n: nat) returns (close: Option<nat>)
    requires 1 <= n <= from <= |line|
    ensures close == NextRun(line, from, n)
  {
    var fence := Ticks(n);
    ghost var at: nat := from;
    close := Find(line, fence, from);
    while close.Some? && ((close.value + n < |line| && line[close.value + n] == '`') || line[close.value - 1] == '`')
      invariant from <= at <= |line| && close == Find(line, fence, at)
      invariant forall j: nat :: from <= j < at ==> !IsRun(line, j, n)
      decreases |line| - at
    {
      var skip: nat := close.value;
      while skip < |line| && line[skip] == '`'
        invariant close.value <= skip <= |line| && RunEnd(line, skip, '`') == RunEnd(line, close.value, '`')
      {
        skip := skip + 1;
      }
      NoRunBefore(line, at, close.value, n);
      at := skip;
      close := Find(line, fence, skip);
    }
    RunFound(line, at, close, n);
    NextRunIs(line, from, n);
  }

  /** The backticks at i, and where the code span they open ends. */
  method ReadSpan(line: string, i: nat) returns (n: nat, e: Option<nat>)
    requires i < |line| && line[i] == '`'
    ensures i + n == RunEnd(line, i, '`') && e == SpanEnd(line, i)
  {
    n := 0;
    while i + n < |line| && line[i + n] == '`'
      invariant i + n <= |line| && RunEnd(line, i + n, '`') == RunEnd(line, i, '`')
    {
      n := n + 1;
    }
    var close := CloseRun(line, i + n, n);
    e := if close.None? then None else Some(close.value + n);
  }

  // --------------------------------------------------- reference definitions

  function NonSpaceEnd(s: string, i: nat): (k: nat)
    requires i <= |s|
    ensures i <= k <= |s| && (forall j :: i <= j < k ==> !Space(s[j]))
    decreases |s| - i
  {
    if i < |s| && !Space(s[i]) then NonSpaceEnd(s, i + 1) else i
  }

  /** Where a definition's destination that begins at `start` ends; None if there is none. */
  function DefinitionEnd(s: string, start: nat): (e: Option<nat>)
    ensures e.Some? ==> start + 4 < e.value <= |s|
  {
    if At(s, ANGLED, start) then
      var close := Find(s, ">", start + 5);
      if close.None? || '<' in s[start + 5..close.value] then None else Some(close.value + 1)
    else if At(s, SCHEME, start) && NonSpaceEnd(s, start + 4) > start + 4 then Some(NonSpaceEnd(s, start + 4))
    else None
  }

  /** What `.` in a pattern does not match. */
  predicate LineTerminator(ch: char) {
    ch == '\n' || ch == '\r' || ch == '\U{2028}' || ch == '\U{2029}'
  }

  datatype Range = Range(start: nat, end: nat)

  /** The destination of a `[label]: run:...` line; None if the line is not one. */
  function Definition(line: string): (r: Option<Range>)
    ensures r.Some? ==> r.value.start + 4 < r.value.end <= |line|
  {
    var k := RunEnd(line, 0, ' ');
    if k > 3 || k == |line| || line[k] != '[' then None
    else
      var close := Find(line, "]", k + 1);
      if close.None? || close.value == k + 1 || !At(line, "]:", close.value) then None
      else
        var start := SkipBlanks(line, close.value + 2);
        var e := DefinitionEnd(line, start);
        if e.None? || exists ch <- line[e.value..] :: LineTerminator(ch) then None else Some(Range(start, e.value))
  }

  /** The destination of a definition line that names a run. */
  function NamedDefinition(line: string, l: Linker): (d: Option<Dest>) {
    var def := Definition(line);
    var d := if def.Some? then ReadDest(line[def.value.start..def.value.end], 0) else None;
    if d.Some? && l.decode(d.value.raw) != "" then d else None
  }

  function ProseOut(line: string, l: Linker): string {
    SegmentsOut(Segments(line, 0, ""), l)
  }

  /** A line outside fences, rewritten. */
  function LineOut(line: string, l: Linker): string {
    var d := NamedDefinition(line, l);
    if d.Some? then
      var def := Definition(line).value;
      line[..def.start] + Link(l, d.value.raw) + line[def.end..]
    else ProseOut(line, l)
  }

  /** What the loop over code spans has still to write from i, `text` gathered. */
  function ProseRest(line: string, i: nat, text: string, l: Linker): string
    requires i <= |line|
    decreases |line| - i
  {
    if i == |line| then InlineOut(text, l)
    else if line[i] != '`' then ProseRest(line, i + 1, text + [line[i]], l)
    else
      var k := RunEnd(line, i, '`');
      var e := SpanEnd(line, i);
      if e.None? then ProseRest(line, k, text + line[i..k], l)
      else InlineOut(text, l) + line[i..e.value] + ProseRest(line, e.value, "", l)
  }

  lemma ProseRestLast(line: string, text: string, l: Linker)
    ensures SegmentsOut(Segments(line, |line|, text), l) == InlineOut(text, l)
  {
    assert [Prose(text)][1..] == [];
  }

  lemma {:induction false} ProseRestIs(line: string, i: nat, text: string, l: Linker)
    requires i <= |line|
    ensures ProseRest(line, i, text, l) == SegmentsOut(Segments(line, i, text), l)
    decreases |line| - i
  {
    if i == |line| {
      ProseRestLast(line, text, l);
    } else if line[i] != '`' {
      ProseRestIs(line, i + 1, text + [line[i]], l);
    } else {
      var k := RunEnd(line, i, '`');
      var e := SpanEnd(line, i);
      if e.None? {
        ProseRestIs(line, k, text + line[i..k], l);
      } else {
        ProseRestIs(line, e.value, "", l);
        SpanOut(text, line[i..e.value], Segments(line, e.value, ""), l);
      }
    }
  }

  lemma RegroupOut(out: string, p: string, c: string, rest: string)
    ensures out + (p + c + rest) == out + p + c + rest
  {
  }

  method RewriteLine(line: string, l: Linker) returns (out: string)
    ensures out == LineOut(line, l)
  {
    var definition := Definition(line);
    if definition.Some? {
      var def := definition.value;
      var parsed := ReadRunDestination(line[def.start..def.end], 0);
      if parsed.Some? && l.decode(parsed.value.raw) != "" {
        return line[..def.start] + Link(l, parsed.value.raw) + line[def.end..];
      }
    }
    out := RewriteProse(line, l);
    ProseRestIs(line, 0, "", l);
  }

  /** The loop of rewriteLine that steps over code spans. */
  method RewriteProse(line: string, l: Linker) returns (out: string)
    ensures out == ProseRest(line, 0, "", l)
  {
    out := "";
    var text := "";
    var i: nat := 0;
    while i < |line|
      invariant i <= |line|
      invariant out + ProseRest(line, i, text, l) == ProseRest(line, 0, "", l)
    {
      if line[i] != '`' {
        text, i := text + [line[i]], i + 1;
        continue;
      }
      var n, close := ReadSpan(line, i);
      if close.None? {
        text, i := text + line[i..i + n], i + n;
        continue;
      }
      var prose := RewriteInline(text, l);
      RegroupOut(out, prose, line[i..close.value], ProseRest(line, close.value, "", l));
      out, text, i := out + prose + line[i..close.value], "", close.value;
    }
    var last := RewriteInline(text, l);
    out := out + last;
  }

  // ------------------------------------------------------------------ fences

  datatype Fence = Outside | Inside(ch: char, length: nat)

  /** The fence marker a line opens with: up to three spaces, then three or more backticks or tildes. */
  function Marker(line: string): Fence {
    var k := RunEnd(line, 0, ' ');
    if k > 3 || k == |line| || (line[k] != '`' && line[k] != '~') then Outside
    else var n := RunEnd(line, k, line[k]) - k; if n < 3 then Outside else Inside(line[k], n)
  }

  /** The line closes the fence: nothing on it but a marker of the same character, at least as long. */
  predicate Closes(fence: Fence, line: string)
    requires fence.Inside?
  {
    var m := Marker(line);
    m.Inside? && m.ch == fence.ch && m.length >= fence.length && Trim(line) == seq(m.length, _ => m.ch)
  }

  function NextFence(fence: Fence, line: string): Fence {
    if fence.Inside? then if Closes(fence, line) then Outside else fence else Marker(line)
  }

  /** A line of a fenced block, its opening and closing lines included. */
  predicate Fenced(fence: Fence, line: string) {
    fence.Inside? || Marker(line).Inside?
  }

  /** The fence that is open before line i. */
  function FenceBefore(lines: seq<string>, i: nat): Fence
    requires i <= |lines|
  {
    if i == 0 then Outside else NextFence(FenceBefore(lines, i - 1), lines[i - 1])
  }

  function Rewritten(lines: seq<string>, i: nat, l: Linker): string
    requires i < |lines|
  {
    if Fenced(FenceBefore(lines, i), lines[i]) then lines[i] else LineOut(lines[i], l)
  }

  /** The first n lines, rewritten. */
  function RewrittenLines(lines: seq<string>, n: nat, l: Linker): (r: seq<string>)
    requires n <= |lines|
    ensures |r| == n && forall i :: 0 <= i < n ==> r[i] == Rewritten(lines, i, l)
  {
    if n == 0 then [] else RewrittenLines(lines, n - 1, l) + [Rewritten(lines, n - 1, l)]
  }

  /** The notebook with every run link pointed at its run. */
  function RewrittenNotes(source: string, l: Linker): string {
    var lines := Parts(source);
    Join(RewrittenLines(lines, |lines|, l), "\n")
  }

  method RewriteRunLinks(source: string, l: Linker) returns (out: string)
    ensures out == RewrittenNotes(source, l)
  {
    if Find(source, SCHEME, 0).None? {
      FindIsFirst(source, SCHEME, 0);
      NoRunLinkNoChange(source, l);
      return source;
    }
    var lines := Parts(source);
    var fence, done: seq<string> := Outside, [];
    for i := 0 to |lines|
      invariant fence == FenceBefore(lines, i) && done == RewrittenLines(lines, i, l)
    {
      var line := lines[i];
      var marker := Marker(line);
      if fence.Inside? {
        if Closes(fence, line) { fence := Outside; }
        done := done + [line];
      } else if marker.Inside? {
        fence := marker;
        done := done + [line];
      } else {
        var rewritten := RewriteLine(line, l);
        done := done + [rewritten];
      }
    }
    out := Join(done, "\n");
  }

  // ------------------------------------------------------- what the rewrite keeps

  ghost predicate NoScheme(s: string) {
    forall j: nat :: !At(s, SCHEME, j)
  }

  lemma SliceOfSlice(s: string, a: nat, b: nat, i: nat, j: nat)
    requires a <= b <= |s| && i <= j
    ensures j <= b - a ==> s[a..b][i..j] == s[a + i..a + j]
  {
    if j <= b - a {
      assert forall k | 0 <= k < j - i :: s[a..b][i..j][k] == s[a + i..a + j][k];
    }
  }

  lemma NoSchemeSlice(s: string, a: nat, b: nat)
    requires NoScheme(s) && a <= b <= |s|
    ensures NoScheme(s[a..b])
  {
    forall j: nat ensures !At(s[a..b], SCHEME, j) {
      SliceOfSlice(s, a, b, j, j + 4);
      assert !At(s, SCHEME, a + j);
    }
  }

  lemma AngledHolds(s: string, k: nat)
    ensures At(s, ANGLED, k) ==> At(s, SCHEME, k + 1)
  {
    if At(s, ANGLED, k) { assert s[k + 1..k + 5] == s[k..k + 5][1..]; }
  }

  lemma NoDest(s: string, k: nat)
    requires NoScheme(s)
    ensures ReadDest(s, k).None?
  {
    AngledHolds(s, k);
  }

  lemma NoLinkInline(s: string, l: Linker)
    requires NoScheme(s)
    ensures InlineOut(s, l) == s
  {
    HitIs(s, 0, l);
    forall j: nat ensures !Names(s, j, l) {
      if At(s, "](", j) { NoDest(s, DestAt(s, j)); }
    }
    assert NextHit(s, 0, l).None? && s[0..] == s;
    OutputEnd(s, [], 0, l);
    assert [] + [Kept(0, |s|)] == [Kept(0, |s|)];
  }

  /** Laid end to end from o the segments are the line. */
  predicate Tiles(line: string, o: nat, segments: seq<Segment>)
    decreases |segments|
  {
    if segments == [] then o == |line|
    else
      var e := o + |segments[0].text|;
      e <= |line| && line[o..e] == segments[0].text && Tiles(line, e, segments[1..])
  }

  lemma {:induction false} SpansTile(line: string, o: nat, segments: seq<Segment>)
    requires SpansOk(line, o, segments)
    ensures Tiles(line, o, segments)
    decreases |segments|
  {
    if segments != [] { SpansTile(line, o + |segments[0].text|, segments[1..]); }
  }

  lemma NoLinkSlice(line: string, o: nat, e: nat, l: Linker)
    requires o <= e <= |line| && NoScheme(line)
    ensures InlineOut(line[o..e], l) == line[o..e] && line[o..e] + line[e..] == line[o..]
  {
    NoSchemeSlice(line, o, e);
    NoLinkInline(line[o..e], l);
  }

  lemma NoLinkStep(line: string, o: nat, e: nat, segments: seq<Segment>, l: Linker)
    requires NoScheme(line) && o <= e <= |line| && segments != [] && segments[0].text == line[o..e]
    requires SegmentsOut(segments[1..], l) == line[e..]
    ensures SegmentsOut(segments, l) == line[o..]
  {
    NoLinkSlice(line, o, e, l);
  }

  lemma {:induction false} NoLinkSegments(line: string, o: nat, segments: seq<Segment>, l: Linker)
    requires o <= |line| && NoScheme(line) && Tiles(line, o, segments)
    ensures SegmentsOut(segments, l) == line[o..]
    decreases |segments|
  {
    if segments != [] {
      var e := o + |segments[0].text|;
      NoLinkSegments(line, e, segments[1..], l);
      NoLinkStep(line, o, e, segments, l);
    }
  }

  lemma NoLinkLine(line: string, l: Linker)
    requires NoScheme(line)
    ensures LineOut(line, l) == line
  {
    var def := Definition(line);
    if def.Some? {
      NoSchemeSlice(line, def.value.start, def.value.end);
      NoDest(line[def.value.start..def.value.end], 0);
    }
    LineIsCut(line);
    SpansTile(line, 0, Segments(line, 0, ""));
    NoLinkSegments(line, 0, Segments(line, 0, ""), l);
  }

  /** The code spans and prose of a whole line. */
  lemma LineIsCut(line: string)
    ensures SpansOk(line, 0, Segments(line, 0, ""))
  {
    CodeSpansAreFound(line, 0, 0);
    assert line[0..0] == "";
  }

  lemma {:induction false} PartsNoScheme(s: string)
    requires NoScheme(s)
    ensures forall p <- Parts(s) :: NoScheme(p)
    ensures Parts(s)[0] <= s
    decreases |s|
  {
    if s != "" {
      assert s[1..] == s[1..|s|];
      NoSchemeSlice(s, 1, |s|);
      PartsNoScheme(s[1..]);
      var first := Parts(s)[0];
      assert first <= s;
      NoSchemeSlice(s, 0, |first|);
      assert first == s[0..|first|];
    }
  }

  /** Notes that do not hold the scheme come out as they are: the early return loses nothing. */
  lemma NoRunLinkNoChange(source: string, l: Linker)
    requires NoScheme(source)
    ensures RewrittenNotes(source, l) == source
  {
    var lines := Parts(source);
    PartsNoScheme(source);
    forall i | 0 <= i < |lines| ensures RewrittenLines(lines, |lines|, l)[i] == lines[i] {
      assert NoScheme(lines[i]);
      NoLinkLine(lines[i], l);
    }
    assert RewrittenLines(lines, |lines|, l) == lines;
    JoinParts(source);
  }

  /** No link breaks a line. */
  ghost predicate LinksArePlain(l: Linker) {
    forall name: string :: '\n' !in l.href(name)
  }

  lemma ShownIsPlain(s: string, p: Piece, l: Linker)
    requires '\n' !in s && LinksArePlain(l)
    ensures '\n' !in Shown(s, p, l)
  {
    assert '\n' !in "<" && '\n' !in ">";
  }

  lemma {:induction false} OutputIsPlain(s: string, ps: seq<Piece>, l: Linker)
    requires '\n' !in s && LinksArePlain(l)
    ensures '\n' !in Output(s, ps, l)
  {
    if ps != [] {
      OutputIsPlain(s, ps[..|ps| - 1], l);
      ShownIsPlain(s, ps[|ps| - 1], l);
    }
  }

  lemma {:induction false} SegmentsOutIsPlain(line: string, o: nat, segments: seq<Segment>, l: Linker)
    requires o <= |line| && '\n' !in line && Tiles(line, o, segments) && LinksArePlain(l)
    ensures '\n' !in SegmentsOut(segments, l)
    decreases |segments|
  {
    if segments != [] {
      var text := segments[0].text;
      assert '\n' !in text by { assert text == line[o..o + |text|]; }
      OutputIsPlain(text, Inline(text, 0, l), l);
      SegmentsOutIsPlain(line, o + |text|, segments[1..], l);
    }
  }

  lemma LineOutIsPlain(line: string, l: Linker)
    requires '\n' !in line && LinksArePlain(l)
    ensures '\n' !in LineOut(line, l)
  {
    ProseOutIsPlain(line, l);
    var d := NamedDefinition(line, l);
    if d.Some? {
      var def := Definition(line).value;
      CutIsPlain(line[..def.start], Link(l, d.value.raw), line[def.end..]);
    }
  }

  lemma ProseOutIsPlain(line: string, l: Linker)
    requires '\n' !in line && LinksArePlain(l)
    ensures '\n' !in ProseOut(line, l) && forall raw: string :: '\n' !in Link(l, raw)
  {
    LineIsCut(line);
    SpansTile(line, 0, Segments(line, 0, ""));
    SegmentsOutIsPlain(line, 0, Segments(line, 0, ""), l);
    assert '\n' !in "<" && '\n' !in ">";
  }

  lemma CutIsPlain(a: string, b: string, c: string)
    requires '\n' !in a && '\n' !in b && '\n' !in c
    ensures '\n' !in a + b + c
  {
  }

  /** The rewritten notes have the lines of the notes, one for one, and those of a fenced block are untouched. */
  lemma NotesKeepTheirLines(source: string, l: Linker)
    requires LinksArePlain(l)
    ensures var lines, out := Parts(source), Parts(RewrittenNotes(source, l));
            && |out| == |lines|
            && forall i :: 0 <= i < |lines| ==>
                 out[i] == if Fenced(FenceBefore(lines, i), lines[i]) then lines[i] else LineOut(lines[i], l)
  {
    var lines := Parts(source);
    var done := RewrittenLines(lines, |lines|, l);
    PartsHaveNoNewline(source);
    forall p | p in done ensures '\n' !in p {
      var i :| 0 <= i < |done| && done[i] == p;
      assert lines[i] in lines;
      LineOutIsPlain(lines[i], l);
    }
    PartsJoin(done);
  }

  /** Off definition lines: the code spans come out as they are, and prose changes only where a link names a run. */
  lemma ProseIsExact(line: string, l: Linker)
    requires NamedDefinition(line, l).None?
    ensures var segments := Segments(line, 0, "");
            && SpansOk(line, 0, segments) && LineOut(line, l) == SegmentsOut(segments, l)
            && forall i :: 0 <= i < |segments| && segments[i].Prose? ==>
                 var text := segments[i].text;
                 InlineOut(text, l) == Output(text, Inline(text, 0, l), l) && Exact(text, 0, Inline(text, 0, l), l)
  {
    LineIsCut(line);
    var segments := Segments(line, 0, "");
    forall i | 0 <= i < |segments| && segments[i].Prose?
      ensures var text := segments[i].text;
              InlineOut(text, l) == Output(text, Inline(text, 0, l), l) && Exact(text, 0, Inline(text, 0, l), l)
    {
      InlineIsExact(segments[i].text, 0, l);
    }
  }

  // ------------------------------------------------- what a definition line loses

  /** s[i..] closes a parenthesis it did not open, `depth` being open already; an escaped one does not count. */
  predicate Overclosed(s: string, i: nat, depth: nat)
    decreases |s| - i
  {
    i < |s| &&
    if Escape(s, i) then Overclosed(s, i + 2, depth)
    else if s[i] == ')' then depth == 0 || Overclosed(s, i + 1, depth - 1)
    else Overclosed(s, i + 1, if s[i] == '(' then depth + 1 else depth)
  }

  lemma {:induction false} BareStopsShort(s: string, i: nat, depth: nat, raw: string)
    requires i <= |s| && forall j :: i <= j < |s| ==> !Space(s[j])
    ensures Bare(s, i, depth, raw).end < |s| <==> Overclosed(s, i, depth)
    decreases |s| - i
  {
    if i < |s| {
      if Escape(s, i) {
        BareStopsShort(s, i + 2, depth, raw + [s[i + 1]]);
      } else if !Stops(s[i], depth) {
        BareStopsShort(s, i + 1, Deeper(depth, s[i]), raw + [s[i]]);
      }
    }
  }

  lemma AtChar(s: string, ch: char, j: nat)
    ensures At(s, [ch], j) <==> j < |s| && s[j] == ch
  {
    if j < |s| { assert s[j..j + 1] == [s[j]]; }
  }

  lemma AngledDest(line: string, start: nat, close: nat)
    requires At(line, ANGLED, start) && Find(line, ">", start + 5) == Some(close)
    ensures Find(line[start..close + 1], ">", 0) == Some(close - start)
  {
    var dest := line[start..close + 1];
    FindIsFirst(line, ">", start + 5);
    FindIsFirst(dest, ">", 0);
    assert forall k | 0 <= k < 5 :: line[start + k] == line[start..start + 5][k] == ANGLED[k];
    assert forall k | 0 <= k < 5 :: ANGLED[k] != '>';
    forall j: nat | j <= close - start ensures At(dest, ">", j) <==> j == close - start {
      assert dest[j] == line[start + j];
      AtChar(dest, '>', j);
      AtChar(line, '>', start + j);
      assert j < 5 ==> line[start + j] == ANGLED[j];
    }
    assert At(dest, ">", close - start);
  }

  lemma BareDest(line: string, start: nat, end: nat)
    requires start + 4 < end <= |line| && !At(line, ANGLED, start) && At(line, SCHEME, start)
    requires end == NonSpaceEnd(line, start + 4)
    ensures var dest := line[start..end];
            !At(dest, ANGLED, 0) && At(dest, SCHEME, 0) && forall j :: 4 <= j < |dest| ==> !Space(dest[j])
  {
    var dest := line[start..end];
    SliceOfSlice(line, start, end, 0, 4);
    SliceOfSlice(line, start, end, 0, 5);
    assert forall j | 4 <= j < |dest| :: dest[j] == line[start + j];
  }

  /** The destination is read to its end exactly when it is in angle brackets or balanced. */
  predicate ReadsWhole(dest: string) {
    ReadDest(dest, 0).Some? ==>
      (ReadDest(dest, 0).value.end == |dest| <==> At(dest, ANGLED, 0) || !Overclosed(dest, 4, 0))
  }

  lemma AngledReadsWhole(line: string, start: nat, close: nat)
    requires At(line, ANGLED, start) && Find(line, ">", start + 5) == Some(close)
    ensures ReadsWhole(line[start..close + 1])
  {
    AngledDest(line, start, close);
    SliceOfSlice(line, start, close + 1, 0, 5);
  }

  lemma BareReadsWhole(line: string, start: nat, end: nat)
    requires start + 4 < end <= |line| && !At(line, ANGLED, start) && At(line, SCHEME, start)
    requires end == NonSpaceEnd(line, start + 4)
    ensures ReadsWhole(line[start..end])
  {
    BareDest(line, start, end);
    BareStopsShort(line[start..end], 4, 0, "");
  }

  lemma DefinitionReads(line: string)
    requires Definition(line).Some?
    ensures ReadsWhole(line[Definition(line).value.start..Definition(line).value.end])
  {
    var def := Definition(line).value;
    DestinationReadsWhole(line, def.start, def.end);
  }

  lemma DestinationReadsWhole(line: string, start: nat, end: nat)
    requires DefinitionEnd(line, start) == Some(end)
    ensures end <= |line| && start <= end && ReadsWhole(line[start..end])
  {
    if At(line, ANGLED, start) {
      AngledReadsWhole(line, start, end - 1);
    } else {
      BareReadsWhole(line, start, end);
    }
  }

  /**
    The destination of a definition line is replaced whole but read only up to an unbalanced `)`:
    what stands after it is in neither the link nor the tail. Nothing is lost exactly when the
    destination is in angle brackets or closes no parenthesis it did not open.
  */
  lemma DefinitionKeepsItsTextExactlyWhenBalanced(line: string, l: Linker)
    requires NamedDefinition(line, l).Some?
    ensures var def, d := Definition(line).value, NamedDefinition(line, l).value;
            var dest := line[def.start..def.end];
            && LineOut(line, l) == line[..def.start] + Link(l, d.raw) + line[def.end..]
            && (d.end == |dest| <==> At(dest, ANGLED, 0) || !Overclosed(dest, 4, 0))
  {
    DefinitionReads(line);
  }

  const LOSSY: string := "[a]: run:x)y"

  lemma LossyEnd()
    ensures DefinitionEnd(LOSSY, 5) == Some(12)
  {
    assert LOSSY[5..9] == SCHEME;
    assert NonSpaceEnd(LOSSY, 11) == 12;
    assert NonSpaceEnd(LOSSY, 9) == 12;
    AtFirst(LOSSY, ANGLED, 5);
  }

  lemma LossyLabel()
    ensures RunEnd(LOSSY, 0, ' ') == 0 && Find(LOSSY, "]", 1) == Some(2) && At(LOSSY, "]:", 2)
    ensures SkipBlanks(LOSSY, 4) == 5
  {
    assert LOSSY[2..3] == "]" && LOSSY[2..4] == "]:";
    AtChar(LOSSY, ']', 1);
    assert Find(LOSSY, "]", 2) == Some(2);
  }

  lemma LossyDefinition()
    ensures Definition(LOSSY) == Some(Range(5, 12))
  {
    LossyLabel();
    LossyEnd();
    assert LOSSY[12..] == "";
  }

  lemma LossyDest()
    ensures ReadDest("run:x)y", 0) == Some(Dest("x", 5))
  {
    var dest := "run:x)y";
    assert dest[0..4] == SCHEME;
    AtFirst(dest, ANGLED, 0);
    assert Bare(dest, 5, 0, "x") == Dest("x", 5) && "" + [dest[4]] == "x";
    assert Bare(dest, 4, 0, "") == Dest("x", 5);
  }

  /** `[a]: run:x)y` comes out without its `)y`. */
  lemma DefinitionCanLoseText(l: Linker)
    requires l.decode("x") != ""
    ensures LineOut(LOSSY, l) == "[a]: " + Link(l, "x")
  {
    LossyDefinition();
    LossyDest();
    assert LOSSY[5..12] == "run:x)y" && LOSSY[..5] == "[a]: " && LOSSY[12..] == "";
  }
}
