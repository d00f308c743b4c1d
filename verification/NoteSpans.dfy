/**
  Code spans of whole stretches of notes. The rewrite looks for them line by line and reads a
  backslash as any other character; CommonMark 0.31 finds them in a paragraph as a whole
  (section 6.1), outside backslash escapes (section 2.4), and knows fences the rewrite does
  not (section 4.5). Here is exactly when they agree.
*/
module NoteSpans {
  import opened Options
  import opened JsText
  import opened Notes

  /** Where the scan of code spans stops at a run of backticks. */
  function Met(text: string, i: nat): set<nat>
    requires i <= |text|
    decreases |text| - i
  {
    if i == |text| then {}
    else if text[i] != '`' then Met(text, i + 1)
    else
      var e := SpanEnd(text, i);
      {i} + Met(text, if e.None? then RunEnd(text, i, '`') else e.value)
  }

  /** The code spans from i on, as the rewrite reads them. */
  function Spans(text: string, i: nat): seq<Range>
    requires i <= |text|
    decreases |text| - i
  {
    if i == |text| then []
    else if text[i] != '`' then Spans(text, i + 1)
    else
      var e := SpanEnd(text, i);
      if e.None? then Spans(text, RunEnd(text, i, '`')) else [Range(i, e.value)] + Spans(text, e.value)
  }

  /** The code segments, by where they stand. */
  function CodeRanges(segments: seq<Segment>, o: nat): seq<Range> {
    if segments == [] then []
    else
      var e := o + |segments[0].text|;
      (if segments[0].Code? then [Range(o, e)] else []) + CodeRanges(segments[1..], e)
  }

  lemma CodeRangesSpan(p: string, c: string, rest: seq<Segment>, o: nat, a: nat, e: nat)
    requires a == o + |p| && e == a + |c|
    ensures CodeRanges([Prose(p), Code(c)] + rest, o) == [Range(a, e)] + CodeRanges(rest, e)
  {
    assert ([Prose(p), Code(c)] + rest)[1..] == [Code(c)] + rest && ([Code(c)] + rest)[1..] == rest;
  }

  lemma CodeRangesEnd(p: string, o: nat)
    ensures CodeRanges([Prose(p)], o) == []
  {
    assert [Prose(p)][1..] == [];
  }

  /** They are the code segments of what the rewrite makes of a line. */
  lemma {:induction false} SpansAreItsCode(text: string, o: nat, i: nat, prose: string)
    requires o + |prose| == i <= |text|
    ensures CodeRanges(Segments(text, i, prose), o) == Spans(text, i)
    decreases |text| - i
  {
    if i == |text| {
      CodeRangesEnd(prose, o);
    } else if text[i] != '`' {
      SpansAreItsCode(text, o, i + 1, prose + [text[i]]);
    } else if SpanEnd(text, i).None? {
      SpansAreItsCode(text, o, RunEnd(text, i, '`'), prose + text[i..RunEnd(text, i, '`')]);
    } else {
      var e := SpanEnd(text, i).value;
      SpansAreItsCode(text, e, e, "");
      CodeRangesSpan(prose, text[i..e], Segments(text, e, ""), o, i, e);
    }
  }

  // ------------------------------------------------------- a stretch of lines

  ghost predicate HasRun(text: string, n: nat) {
    exists j: nat :: IsRun(text, j, n)
  }

  /** NextRun, told by what it is. */
  lemma NextRunFirst(text: string, from: nat, n: nat, j: nat)
    requires from <= j && from <= |text| && IsRun(text, j, n)
    requires forall i: nat :: from <= i < j ==> !IsRun(text, i, n)
    ensures NextRun(text, from, n) == Some(j)
  {
    NextRunIs(text, from, n);
  }

  lemma NextRunNone(text: string, from: nat, n: nat)
    requires from <= |text| && forall i: nat :: from <= i ==> !IsRun(text, i, n)
    ensures NextRun(text, from, n).None?
  {
    NextRunIs(text, from, n);
  }

  /** s is the line, a newline and the rest. */
  predicate Glued(s: string, line: string, rest: string) {
    && |s| == |line| + 1 + |rest| && s[|line|] == '\n'
    && (forall k :: 0 <= k < |line| ==> s[k] == line[k])
    && (forall k :: 0 <= k < |rest| ==> s[|line| + 1 + k] == rest[k])
  }

  lemma GlueLines(line: string, rest: string)
    ensures Glued(line + "\n" + rest, line, rest)
  {
  }

  lemma RunInLine(s: string, line: string, rest: string, j: nat, n: nat)
    requires Glued(s, line, rest)
    requires j <= |line|
    ensures IsRun(s, j, n) <==> IsRun(line, j, n)
  {
    assert j <= |line| < j + n ==> !IsRun(s, j, n);
  }

  lemma RunAfter(s: string, line: string, rest: string, j: nat, n: nat)
    requires Glued(s, line, rest)
    ensures IsRun(s, |line| + 1 + j, n) <==> IsRun(rest, j, n)
  {
    var o := |line| + 1;
    if IsRun(rest, j, n) {
      forall k | o + j <= k < o + j + n ensures s[k] == '`' { assert s[k] == rest[k - o]; }
    }
    if IsRun(s, o + j, n) {
      forall k | j <= k < j + n ensures rest[k] == '`' { assert s[o + k] == rest[k]; }
    }
  }

  lemma {:induction false} RunEndInLine(s: string, line: string, rest: string, i: nat)
    requires Glued(s, line, rest)
    requires i <= |line|
    ensures RunEnd(s, i, '`') == RunEnd(line, i, '`')
    decreases |line| - i
  {
    if i < |line| && line[i] == '`' { RunEndInLine(s, line, rest, i + 1); }
  }

  lemma {:induction false} RunEndAfter(s: string, line: string, rest: string, i: nat)
    requires Glued(s, line, rest)
    requires i <= |rest|
    ensures RunEnd(s, |line| + 1 + i, '`') == |line| + 1 + RunEnd(rest, i, '`')
    decreases |rest| - i
  {
    if i < |rest| && rest[i] == '`' { RunEndAfter(s, line, rest, i + 1); }
  }

  lemma NextRunAfter(s: string, line: string, rest: string, from: nat, n: nat)
    requires Glued(s, line, rest)
    requires from <= |rest|
    ensures var r := NextRun(rest, from, n);
            NextRun(s, |line| + 1 + from, n) == if r.None? then None else Some(|line| + 1 + r.value)
  {
    var r, o := NextRun(rest, from, n), |line| + 1;
    NextRunIs(rest, from, n);
    forall i: nat | o + from <= i && (r.None? || i < o + r.value) ensures !IsRun(s, i, n) {
      RunAfter(s, line, rest, i - o, n);
    }
    if r.None? {
      NextRunNone(s, o + from, n);
    } else {
      RunAfter(s, line, rest, r.value, n);
      NextRunFirst(s, o + from, n, o + r.value);
    }
  }

  lemma NextRunInLine(s: string, line: string, rest: string, from: nat, n: nat)
    requires Glued(s, line, rest)
    requires from <= |line|
    ensures var r := NextRun(line, from, n);
            var q := NextRun(s, from, n);
            && (r.Some? ==> q == r)
            && (r.None? ==> (q.Some? <==> HasRun(rest, n)) && (q.Some? ==> q.value > |line|))
  {
    var r, o := NextRun(line, from, n), |line| + 1;
    NextRunIs(line, from, n);
    NextRunIs(s, from, n);
    forall i: nat | from <= i <= |line| ensures IsRun(s, i, n) <==> IsRun(line, i, n) {
      RunInLine(s, line, rest, i, n);
    }
    if r.Some? {
      NextRunFirst(s, from, n, r.value);
    } else {
      forall i: nat ensures IsRun(s, o + i, n) <==> IsRun(rest, i, n) { RunAfter(s, line, rest, i, n); }
      var q := NextRun(s, from, n);
      if q.Some? { assert IsRun(rest, q.value - o, n); }
    }
  }

  lemma SpanEndInLine(s: string, line: string, rest: string, i: nat)
    requires Glued(s, line, rest)
    requires i < |line| && line[i] == '`'
    ensures s[i] == '`'
    ensures var e := SpanEnd(line, i);
            var f := SpanEnd(s, i);
            && (e.Some? ==> f == e)
            && (e.None? ==> (f.Some? <==> HasRun(rest, RunEnd(line, i, '`') - i)) && (f.Some? ==> f.value > |line|))
  {
    RunEndInLine(s, line, rest, i);
    var k := RunEnd(line, i, '`');
    NextRunInLine(s, line, rest, k, k - i);
  }

  lemma SpanEndAfter(s: string, line: string, rest: string, i: nat)
    requires Glued(s, line, rest)
    requires i < |rest| && rest[i] == '`'
    ensures s[|line| + 1 + i] == '`'
    ensures var e := SpanEnd(rest, i);
            SpanEnd(s, |line| + 1 + i) == if e.None? then None else Some(|line| + 1 + e.value)
  {
    RunEndAfter(s, line, rest, i);
    var k := RunEnd(rest, i, '`');
    NextRunAfter(s, line, rest, k, k - i);
  }

  function Moved(r: Range, d: nat): Range {
    Range(r.start + d, r.end + d)
  }

  function Shift(rs: seq<Range>, d: nat): seq<Range> {
    seq(|rs|, i requires 0 <= i < |rs| => Moved(rs[i], d))
  }

  lemma ShiftCons(r: Range, rs: seq<Range>, d: nat)
    ensures Shift([r] + rs, d) == [Moved(r, d)] + Shift(rs, d)
  {
  }

  lemma ShiftBack(a: seq<Range>, b: seq<Range>, d: nat)
    requires Shift(a, d) == Shift(b, d)
    ensures a == b
  {
    assert |a| == |b|;
    forall i | 0 <= i < |a| ensures a[i] == b[i] {
      assert Shift(a, d)[i] == Shift(b, d)[i] && Moved(a[i], d) == Moved(b[i], d);
    }
  }

  lemma SpansHit(text: string, i: nat, e: nat)
    requires i < |text| && text[i] == '`' && SpanEnd(text, i) == Some(e)
    ensures Spans(text, i) == [Range(i, e)] + Spans(text, e)
  {
  }

  lemma SpansMoved(s: string, rest: string, o: nat, i: nat, e: nat)
    requires i < |rest| && rest[i] == '`' && SpanEnd(rest, i) == Some(e)
    requires o + i < |s| && s[o + i] == '`' && SpanEnd(s, o + i) == Some(o + e)
    requires Spans(s, o + e) == Shift(Spans(rest, e), o)
    ensures Spans(s, o + i) == Shift(Spans(rest, i), o)
  {
    SpansHit(s, o + i, o + e);
    SpansHit(rest, i, e);
    ShiftCons(Range(i, e), Spans(rest, e), o);
  }

  lemma SpansAfterRun(s: string, line: string, rest: string, i: nat)
    requires Glued(s, line, rest) && i < |rest| && rest[i] == '`' && SpanEnd(rest, i).None?
    ensures Spans(s, |line| + 1 + i) == Spans(s, |line| + 1 + RunEnd(rest, i, '`'))
    ensures Spans(rest, i) == Spans(rest, RunEnd(rest, i, '`'))
  {
    SpanEndAfter(s, line, rest, i);
    RunEndAfter(s, line, rest, i);
  }

  lemma SpansAfterSpan(s: string, line: string, rest: string, i: nat, e: nat)
    requires Glued(s, line, rest) && i < |rest| && rest[i] == '`' && SpanEnd(rest, i) == Some(e)
    ensures |line| + 1 + i < |s| && s[|line| + 1 + i] == '`'
    ensures SpanEnd(s, |line| + 1 + i) == Some(|line| + 1 + e)
  {
    SpanEndAfter(s, line, rest, i);
  }

  lemma SpansAfterChar(s: string, line: string, rest: string, i: nat)
    requires Glued(s, line, rest) && i < |rest| && rest[i] != '`'
    ensures Spans(rest, i) == Spans(rest, i + 1) && Spans(s, |line| + 1 + i) == Spans(s, |line| + 1 + i + 1)
  {
    assert s[|line| + 1 + i] == rest[i];
  }

  lemma {:induction false} SpansAfter(s: string, line: string, rest: string, i: nat)
    requires Glued(s, line, rest) && i <= |rest|
    ensures Spans(s, |line| + 1 + i) == Shift(Spans(rest, i), |line| + 1)
    decreases |rest| - i
  {
    if i == |rest| {
      assert Spans(rest, i) == [] && Spans(s, |s|) == [];
    } else if rest[i] != '`' {
      SpansAfter(s, line, rest, i + 1);
      SpansAfterChar(s, line, rest, i);
    } else if SpanEnd(rest, i).None? {
      SpansAfter(s, line, rest, RunEnd(rest, i, '`'));
      SpansAfterRun(s, line, rest, i);
    } else {
      var e := SpanEnd(rest, i).value;
      SpansAfter(s, line, rest, e);
      SpansAfterSpan(s, line, rest, i, e);
      SpansMoved(s, rest, |line| + 1, i, e);
    }
  }

  /** A run that the scan of the line leaves as text, from i on, has a run of its length in the rest. */
  ghost predicate Strays(line: string, i: nat, rest: string)
    requires i <= |line|
  {
    exists m <- Met(line, i) :: Stray(line, m) && HasRun(rest, RunEnd(line, m, '`') - m)
  }

  /** No span of its own begins at the run that begins here. */
  predicate Stray(line: string, m: nat) {
    m < |line| && line[m] == '`' && SpanEnd(line, m).None?
  }

  /** If nothing strays, the line's spans are its own, and those of the rest follow. */
  lemma {:induction false} SpansJoin(s: string, line: string, rest: string, i: nat)
    requires Glued(s, line, rest)
    requires i <= |line| && !Strays(line, i, rest)
    ensures Spans(s, i) == Spans(line, i) + Shift(Spans(rest, 0), |line| + 1)
    decreases |line| - i
  {
    var moved := Shift(Spans(rest, 0), |line| + 1);
    if i == |line| {
      SpansAfter(s, line, rest, 0);
    } else if line[i] != '`' {
      SpansJoin(s, line, rest, i + 1);
    } else {
      var e, k := SpanEnd(line, i), RunEnd(line, i, '`');
      SpanEndInLine(s, line, rest, i);
      RunEndInLine(s, line, rest, i);
      assert i in Met(line, i);
      if e.None? {
        assert Stray(line, i);
        SpansJoin(s, line, rest, k);
      } else {
        SpansJoin(s, line, rest, e.value);
        var r, own := Range(i, e.value), Spans(line, e.value);
        assert [r] + (own + moved) == [r] + own + moved;
      }
    }
  }

  /** If something strays, a span of the whole crosses the end of the line. */
  lemma {:induction false} SpansCross(s: string, line: string, rest: string, i: nat) returns (r: Range)
    requires Glued(s, line, rest)
    requires i <= |line| && Strays(line, i, rest)
    ensures r in Spans(s, i) && r.start < |line| < r.end
    decreases |line| - i
  {
    if line[i] != '`' {
      r := SpansCross(s, line, rest, i + 1);
    } else {
      var e, k := SpanEnd(line, i), RunEnd(line, i, '`');
      SpanEndInLine(s, line, rest, i);
      RunEndInLine(s, line, rest, i);
      if e.None? && HasRun(rest, k - i) {
        r := Range(i, SpanEnd(s, i).value);
      } else if e.None? {
        r := SpansCross(s, line, rest, k);
      } else {
        assert !Stray(line, i);
        r := SpansCross(s, line, rest, e.value);
      }
    }
  }

  lemma {:induction false} SpansWithin(text: string, i: nat)
    requires i <= |text|
    ensures forall r <- Spans(text, i) :: i <= r.start < r.end <= |text|
    decreases |text| - i
  {
    if i < |text| {
      if text[i] != '`' {
        SpansWithin(text, i + 1);
      } else {
        var e := SpanEnd(text, i);
        SpansWithin(text, if e.None? then RunEnd(text, i, '`') else e.value);
      }
    }
  }

  /** The spans of a first line and a rest stand side by side exactly when nothing strays. */
  lemma SpansSplitExactlyWhen(s: string, line: string, rest: string, others: seq<Range>)
    requires Glued(s, line, rest)
    ensures Spans(s, 0) == Spans(line, 0) + Shift(others, |line| + 1)
            <==> !Strays(line, 0, rest) && Spans(rest, 0) == others
  {
    var moved := Shift(others, |line| + 1);
    if Strays(line, 0, rest) {
      var r := SpansCross(s, line, rest, 0);
      SpansWithin(line, 0);
      assert r !in Spans(line, 0);
      assert r !in moved;
    } else {
      var own, after := Spans(line, 0), Shift(Spans(rest, 0), |line| + 1);
      SpansJoin(s, line, rest, 0);
      if own + after == own + moved {
        assert (own + moved)[|own|..] == moved && (own + after)[|own|..] == after;
        ShiftBack(Spans(rest, 0), others, |line| + 1);
      }
    }
  }

  /** The lines' own spans, by where they stand in the lines joined. */
  function LineSpans(lines: seq<string>): seq<Range> {
    if lines == [] then [] else Spans(lines[0], 0) + Shift(LineSpans(lines[1..]), |lines[0]| + 1)
  }

  /** No run that its line leaves as text has a run of its length in a later line. */
  ghost predicate Apart(lines: seq<string>) {
    forall a, b :: 0 <= a < b < |lines| ==> !Strays(lines[a], 0, lines[b])
  }

  lemma RunOfTwo(s: string, line: string, rest: string, n: nat)
    requires Glued(s, line, rest)
    ensures HasRun(s, n) <==> HasRun(line, n) || HasRun(rest, n)
  {
    forall j: nat ensures IsRun(s, |line| + 1 + j, n) <==> IsRun(rest, j, n) {
      RunAfter(s, line, rest, j, n);
    }
    forall j: nat | j <= |line| ensures IsRun(s, j, n) <==> IsRun(line, j, n) {
      RunInLine(s, line, rest, j, n);
    }
    if HasRun(s, n) {
      var j: nat :| IsRun(s, j, n);
      assert j > |line| ==> IsRun(rest, j - |line| - 1, n);
    }
    if HasRun(line, n) {
      var j: nat :| IsRun(line, j, n);
      assert IsRun(s, j, n);
    }
  }

  ghost predicate SomeHasRun(lines: seq<string>, n: nat) {
    exists b :: 0 <= b < |lines| && HasRun(lines[b], n)
  }

  lemma SomeHasRunCons(lines: seq<string>, n: nat)
    requires lines != []
    ensures SomeHasRun(lines, n) <==> HasRun(lines[0], n) || SomeHasRun(lines[1..], n)
  {
    if SomeHasRun(lines[1..], n) {
      var b :| 0 <= b < |lines[1..]| && HasRun(lines[1..][b], n);
      assert HasRun(lines[b + 1], n);
    }
    if SomeHasRun(lines, n) {
      var b :| 0 <= b < |lines| && HasRun(lines[b], n);
      assert b > 0 ==> lines[1..][b - 1] == lines[b];
    }
  }

  lemma {:induction false} RunOfJoin(lines: seq<string>, n: nat)
    requires lines != []
    ensures HasRun(Join(lines, "\n"), n) <==> SomeHasRun(lines, n)
    decreases |lines|
  {
    SomeHasRunCons(lines, n);
    if |lines| == 1 {
      assert Join(lines, "\n") == lines[0] && !SomeHasRun(lines[1..], n);
    } else {
      RunOfJoin(lines[1..], n);
      GlueLines(lines[0], Join(lines[1..], "\n"));
      RunOfTwo(Join(lines, "\n"), lines[0], Join(lines[1..], "\n"), n);
    }
  }

  lemma StraysIntoJoin(line: string, rest: seq<string>)
    requires rest != []
    ensures Strays(line, 0, Join(rest, "\n")) <==> exists b :: 0 <= b < |rest| && Strays(line, 0, rest[b])
  {
    forall n: nat ensures HasRun(Join(rest, "\n"), n) <==> SomeHasRun(rest, n) {
      RunOfJoin(rest, n);
    }
    if Strays(line, 0, Join(rest, "\n")) {
      var m :| m in Met(line, 0) && Stray(line, m) && HasRun(Join(rest, "\n"), RunEnd(line, m, '`') - m);
      var b :| 0 <= b < |rest| && HasRun(rest[b], RunEnd(line, m, '`') - m);
      assert Strays(line, 0, rest[b]);
    }
  }

  ghost predicate StraysIntoSome(line: string, rest: seq<string>) {
    exists b :: 0 <= b < |rest| && Strays(line, 0, rest[b])
  }

  lemma ApartSplits(line: string, rest: seq<string>)
    ensures Apart([line] + rest) <==> !StraysIntoSome(line, rest) && Apart(rest)
  {
    var lines := [line] + rest;
    assert forall a :: 0 <= a < |rest| ==> lines[a + 1] == rest[a];
    if Apart(lines) {
      forall a, b | 0 <= a < b < |rest| ensures !Strays(rest[a], 0, rest[b]) {
        assert !Strays(lines[a + 1], 0, lines[b + 1]);
      }
      forall b | 0 <= b < |rest| ensures !Strays(line, 0, rest[b]) {
        assert !Strays(lines[0], 0, lines[b + 1]);
      }
    }
  }

  lemma ApartCons(line: string, rest: seq<string>)
    requires rest != []
    ensures Apart([line] + rest) <==> !Strays(line, 0, Join(rest, "\n")) && Apart(rest)
  {
    ApartSplits(line, rest);
    StraysIntoJoin(line, rest);
  }

  /**
    The code spans of a stretch of lines taken together are the lines' own exactly when no run
    of backticks that its line leaves as text meets one of its length in a later line.
  */
  lemma {:induction false} LinesKeepTheirSpansExactlyWhenApart(lines: seq<string>)
    requires lines != []
    ensures Spans(Join(lines, "\n"), 0) == LineSpans(lines) <==> Apart(lines)
    decreases |lines|
  {
    var line, rest := lines[0], lines[1..];
    if rest == [] {
      assert LineSpans(rest) == [] && Shift([], |line| + 1) == [];
    } else {
      LinesKeepTheirSpansExactlyWhenApart(rest);
      GlueLines(line, Join(rest, "\n"));
      SpansSplitExactlyWhen(Join(lines, "\n"), line, Join(rest, "\n"), LineSpans(rest));
      assert lines == [line] + rest;
      ApartCons(line, rest);
    }
  }

  /** A span that holds the end of a line. */
  predicate Crosses(text: string, r: Range) {
    exists k :: r.start <= k < r.end && k < |text| && text[k] == '\n'
  }

  /** In other words: exactly when no code span of the lines together crosses the end of a line. */
  lemma {:induction false} ApartExactlyWhenNoSpanCrosses(lines: seq<string>)
    requires lines != [] && forall l <- lines :: '\n' !in l
    ensures Apart(lines) <==> forall r <- Spans(Join(lines, "\n"), 0) :: !Crosses(Join(lines, "\n"), r)
    decreases |lines|
  {
    var line, rest := lines[0], lines[1..];
    if rest == [] {
      NoneCrossesOneLine(line);
    } else {
      assert lines == [line] + rest && forall l <- rest :: l in lines;
      ApartExactlyWhenNoSpanCrosses(rest);
      GlueLines(line, Join(rest, "\n"));
      ApartCons(line, rest);
      CrossesExactlyWhen(Join(lines, "\n"), line, Join(rest, "\n"));
    }
  }

  lemma NoneCrossesOneLine(line: string)
    requires '\n' !in line
    ensures forall r <- Spans(line, 0) :: !Crosses(line, r)
  {
  }

  lemma CrossesExactlyWhen(s: string, line: string, rest: string)
    requires Glued(s, line, rest) && '\n' !in line
    ensures (forall r <- Spans(s, 0) :: !Crosses(s, r))
            <==> !Strays(line, 0, rest) && forall r <- Spans(rest, 0) :: !Crosses(rest, r)
  {
    if Strays(line, 0, rest) {
      var r := SpansCross(s, line, rest, 0);
      assert s[|line|] == '\n' && Crosses(s, r);
    } else {
      SpansWithin(line, 0);
      SpansJoin(s, line, rest, 0);
      CrossingMoves(s, line, rest, Spans(line, 0), Spans(rest, 0));
    }
  }

  lemma CrossingMoves(s: string, line: string, rest: string, own: seq<Range>, others: seq<Range>)
    requires Glued(s, line, rest) && '\n' !in line
    requires forall r <- own :: r.end <= |line|
    ensures (forall r <- own + Shift(others, |line| + 1) :: !Crosses(s, r)) <==> forall r <- others :: !Crosses(rest, r)
  {
    var o := |line| + 1;
    forall r <- own ensures !Crosses(s, r) {
      assert forall k :: 0 <= k < |line| ==> s[k] in line;
    }
    forall r: Range ensures Crosses(s, Moved(r, o)) <==> Crosses(rest, r) {
      if Crosses(rest, r) {
        var k :| r.start <= k < r.end && k < |rest| && rest[k] == '\n';
        assert s[o + k] == '\n';
      }
      if Crosses(s, Moved(r, o)) {
        var k :| r.start + o <= k < r.end + o && k < |s| && s[k] == '\n';
        assert rest[k - o] == s[o + (k - o)];
      }
    }
    forall i | 0 <= i < |others| ensures Moved(others[i], o) in own + Shift(others, o) {
      assert Shift(others, o)[i] == Moved(others[i], o);
    }
  }

  // ------------------------------------------------------------------ escapes

  /** ASCII punctuation, which a backslash escapes. */
  predicate Punctuation(ch: char) {
    '!' <= ch <= '/' || ':' <= ch <= '@' || '[' <= ch <= '`' || '{' <= ch <= '~'
  }

  predicate Escapes(text: string, i: nat) {
    i + 1 < |text| && text[i] == '\\' && Punctuation(text[i + 1])
  }

  /**
    The code spans with backslashes heeded: an escaped backtick is text, and a run is counted
    from where the text stops being escaped.
  */
  function EscapedSpans(text: string, i: nat): seq<Range>
    requires i <= |text|
    decreases |text| - i
  {
    if i == |text| then []
    else if Escapes(text, i) then EscapedSpans(text, i + 2)
    else if text[i] != '`' then EscapedSpans(text, i + 1)
    else
      var e := SpanEnd(text, i);
      if e.None? then EscapedSpans(text, RunEnd(text, i, '`'))
      else [Range(i, e.value)] + EscapedSpans(text, e.value)
  }

  /** An odd number of backslashes stands before i. */
  predicate Odd(text: string, i: nat)
    requires i <= |text|
  {
    i > 0 && text[i - 1] == '\\' && !Odd(text, i - 1)
  }

  /** The run at i opens nothing, with or without its first backtick. */
  predicate StaysText(text: string, i: nat)
    requires i < |text| && text[i] == '`'
  {
    SpanEnd(text, i).None? && (i + 1 < RunEnd(text, i, '`') ==> SpanEnd(text, i + 1).None?)
  }

  /** Every run the scan stops at after an odd number of backslashes opens nothing. */
  ghost predicate EscapesAreIdle(text: string, i: nat)
    requires i <= |text|
  {
    forall m <- Met(text, i) :: m < |text| && text[m] == '`' && (Odd(text, m) ==> StaysText(text, m))
  }

  lemma {:induction false} EscapedSpansFrom(text: string, i: nat)
    requires i <= |text|
    ensures forall r <- EscapedSpans(text, i) :: i <= r.start
    decreases |text| - i
  {
    if i < |text| {
      if Escapes(text, i) {
        EscapedSpansFrom(text, i + 2);
      } else if text[i] != '`' {
        EscapedSpansFrom(text, i + 1);
      } else {
        var e := SpanEnd(text, i);
        EscapedSpansFrom(text, if e.None? then RunEnd(text, i, '`') else e.value);
      }
    }
  }

  /** Nothing before i escapes what stands there. */
  predicate InStep(text: string, i: nat) {
    i <= |text| && (Odd(text, i) ==> i == |text| || !Punctuation(text[i]))
  }

  /** The scan goes on after a backtick, whether or not the run at i opened a span. */
  lemma AfterTicks(text: string, i: nat)
    requires i < |text| && text[i] == '`'
    ensures var e := SpanEnd(text, i);
            !Odd(text, RunEnd(text, i, '`')) && (e.Some? ==> !Odd(text, e.value))
  {
    var k := RunEnd(text, i, '`');
    RunEndIs(text, i, '`');
    NextRunIs(text, k, k - i);
  }

  lemma SameStepAtTicks(text: string, i: nat, next: nat)
    requires i < |text| && text[i] == '`' && !Odd(text, i) && next <= |text|
    requires next == if SpanEnd(text, i).None? then RunEnd(text, i, '`') else SpanEnd(text, i).value
    ensures Spans(text, i) == EscapedSpans(text, i) <==> Spans(text, next) == EscapedSpans(text, next)
    ensures EscapesAreIdle(text, i) <==> EscapesAreIdle(text, next)
  {
    assert Met(text, i) == {i} + Met(text, next);
    if SpanEnd(text, i).Some? {
      var r := Range(i, next);
      assert Spans(text, i) == [r] + Spans(text, next) && EscapedSpans(text, i) == [r] + EscapedSpans(text, next);
      assert ([r] + Spans(text, next))[1..] == Spans(text, next);
      assert ([r] + EscapedSpans(text, next))[1..] == EscapedSpans(text, next);
    }
  }

  /** The two scans at a backslash that escapes the first of a run of backticks. */
  lemma EscapedRunAt(text: string, i: nat)
    requires Escapes(text, i) && text[i + 1] == '`' && !Odd(text, i)
    ensures var k := RunEnd(text, i + 1, '`');
            && Odd(text, i + 1) && !Odd(text, k)
            && (StaysText(text, i + 1) ==>
                   && Spans(text, i) == Spans(text, k) && EscapedSpans(text, i) == EscapedSpans(text, k)
                   && Met(text, i) == {i + 1} + Met(text, k))
            && (!StaysText(text, i + 1) ==> Spans(text, i) != EscapedSpans(text, i) && i + 1 in Met(text, i))
  {
    var k := RunEnd(text, i + 1, '`');
    RunEndIs(text, i + 1, '`');
    assert RunEnd(text, i + 2, '`') == k;
    EscapedSpansFrom(text, i + 2);
    SpansWithin(text, k);
    assert Spans(text, i) == Spans(text, i + 1) && EscapedSpans(text, i) == EscapedSpans(text, i + 2);
    if SpanEnd(text, i + 1).Some? {
      assert Spans(text, i + 1)[0] == Range(i + 1, SpanEnd(text, i + 1).value);
    } else if i + 2 < k && SpanEnd(text, i + 2).Some? {
      assert EscapedSpans(text, i + 2)[0] == Range(i + 2, SpanEnd(text, i + 2).value);
    }
  }

  /**
    Reading backslashes as text finds the spans that heeding them finds exactly when no run the
    scan stops at after an odd number of backslashes closes, with or without its first backtick.
  */
  lemma {:induction false} EscapesMatterExactlyWhen(text: string, i: nat)
    requires InStep(text, i)
    ensures Spans(text, i) == EscapedSpans(text, i) <==> EscapesAreIdle(text, i)
    decreases |text| - i
  {
    if i == |text| {
      assert Met(text, i) == {};
    } else if Escapes(text, i) && text[i + 1] == '`' {
      EscapedRunAt(text, i);
      EscapesMatterExactlyWhen(text, RunEnd(text, i + 1, '`'));
    } else if Escapes(text, i) {
      assert Odd(text, i + 1) && !Odd(text, i + 2) && text[i + 1] != '`';
      assert Spans(text, i + 1) == Spans(text, i + 2) && Met(text, i + 1) == Met(text, i + 2);
      EscapesMatterExactlyWhen(text, i + 2);
    } else if text[i] != '`' {
      EscapesMatterExactlyWhen(text, i + 1);
    } else {
      var e := SpanEnd(text, i);
      var next := if e.None? then RunEnd(text, i, '`') else e.value;
      AfterTicks(text, i);
      EscapesMatterExactlyWhen(text, next);
      SameStepAtTicks(text, i, next);
    }
  }

  // ------------------------------------------------------------------- fences

  /** Where the text after a fence marker begins. */
  function InfoStart(line: string): nat
    ensures InfoStart(line) <= |line|
  {
    RunEnd(line, RunEnd(line, 0, ' '), '`')
  }

  /** A backtick fence in the code, but not in CommonMark: the text after it holds a backtick. */
  predicate TickedInfo(line: string) {
    Marker(line).Inside? && Marker(line).ch == '`' && '`' in line[InfoStart(line)..]
  }

  /** The fence open before line i, as CommonMark has it. */
  function TrueFence(lines: seq<string>, i: nat): Fence
    requires i <= |lines|
  {
    if i == 0 then Outside
    else if TrueFence(lines, i - 1).Outside? && TickedInfo(lines[i - 1]) then Outside
    else NextFence(TrueFence(lines, i - 1), lines[i - 1])
  }

  predicate SameFence(lines: seq<string>, i: nat)
    requires i <= |lines|
  {
    FenceBefore(lines, i) == TrueFence(lines, i)
  }

  /** Line i, outside fences, opens a backtick fence with a backtick after it. */
  predicate Misread(lines: seq<string>, i: nat)
    requires i < |lines|
  {
    FenceBefore(lines, i).Outside? && TickedInfo(lines[i])
  }

  lemma FenceStep(lines: seq<string>, i: nat)
    requires i < |lines| && SameFence(lines, i)
    ensures SameFence(lines, i + 1) <==> !Misread(lines, i)
  {
    assert FenceBefore(lines, i + 1) == NextFence(FenceBefore(lines, i), lines[i]);
  }

  /** The fences are CommonMark's exactly when no such line is met. */
  lemma {:induction false} FencesAgreeExactlyWhen(lines: seq<string>, n: nat)
    requires n <= |lines|
    ensures (forall i :: 0 <= i <= n ==> SameFence(lines, i)) <==> forall i :: 0 <= i < n ==> !Misread(lines, i)
  {
    if n > 0 {
      FencesAgreeExactlyWhen(lines, n - 1);
      if SameFence(lines, n - 1) { FenceStep(lines, n - 1); }
    }
  }

  // ----------------------------------------------------------- what goes wrong

  lemma {:induction false} SegmentsSkip(line: string, i: nat, j: nat, text: string)
    requires i <= j <= |line| && forall k :: i <= k < j ==> line[k] != '`'
    ensures Segments(line, i, text) == Segments(line, j, text + line[i..j])
    decreases j - i
  {
    if i < j {
      SegmentsSkip(line, i + 1, j, text + [line[i]]);
      assert text + [line[i]] + line[i + 1..j] == text + line[i..j];
    } else {
      assert text + line[i..j] == text;
    }
  }

  lemma OneProse(text: string, l: Linker)
    ensures SegmentsOut([Prose(text)], l) == InlineOut(text, l)
  {
    assert [Prose(text)][1..] == [];
  }

  const CROSSING: string := "[x](run:y)`"

  lemma CrossingIsProse()
    ensures Segments(CROSSING, 0, "") == [Prose(CROSSING)]
  {
    SegmentsSkip(CROSSING, 0, 10, "");
    var text := "" + CROSSING[0..10];
    assert CROSSING[10] == '`' && RunEnd(CROSSING, 11, '`') == 11 && RunEnd(CROSSING, 10, '`') == 11;
    NextRunIs(CROSSING, 11, 1);
    assert SpanEnd(CROSSING, 10).None?;
    assert text + CROSSING[10..11] == CROSSING;
  }

  lemma CrossingOpen()
    ensures Find(CROSSING, "](", 0) == Some(2) && DestAt(CROSSING, 2) == 4
  {
    AtFirst(CROSSING, "](", 0);
    AtFirst(CROSSING, "](", 1);
    assert CROSSING[2..4] == "](" && At(CROSSING, "](", 2);
    assert Find(CROSSING, "](", 2) == Some(2);
    assert !At(CROSSING, "](", 1) && Find(CROSSING, "](", 1) == Some(2);
    assert !At(CROSSING, "](", 0) && Find(CROSSING, "](", 0) == Some(2);
  }

  lemma CrossingDest()
    ensures ReadDest(CROSSING, 4) == Some(Dest("y", 9))
  {
    assert CROSSING[4..8] == SCHEME;
    AtFirst(CROSSING, ANGLED, 4);
    assert Bare(CROSSING, 9, 0, "y") == Dest("y", 9) && "" + [CROSSING[8]] == "y";
    assert Bare(CROSSING, 8, 0, "") == Dest("y", 9);
  }

  lemma CrossingHit(l: Linker)
    requires l.decode("y") != ""
    ensures NextHit(CROSSING, 0, l) == Some(Hit(4, Dest("y", 9)))
  {
    CrossingOpen();
    CrossingDest();
  }

  lemma CrossingLink(l: Linker)
    requires l.decode("y") != ""
    ensures InlineOut(CROSSING, l) == "[x](" + Link(l, "y") + ")`"
  {
    CrossingHit(l);
    NoBracketAfter(l);
    var two := [Kept(0, 4), Linked(4, 9, "y")];
    OutputEnd(CROSSING, two, 9, l);
    CrossingPieces(two, l);
    CrossingText();
  }

  lemma CrossingPieces(two: seq<Piece>, l: Linker)
    requires two == [Kept(0, 4), Linked(4, 9, "y")]
    ensures Output(CROSSING, two, l) == CROSSING[0..4] + Link(l, "y")
  {
    OutputHit(CROSSING, [], 0, 4, 9, "y", l);
    assert [] + two == two && "" + CROSSING[0..4] == CROSSING[0..4];
  }

  lemma CrossingText()
    ensures CROSSING[0..4] == "[x](" && CROSSING[9..] == ")`"
  {
  }

  lemma NoBracketAfter(l: Linker)
    ensures Inline(CROSSING, 9, l) == [Kept(9, |CROSSING|)]
  {
    var open := Find(CROSSING, "](", 9);
    if open.Some? { AtFirst(CROSSING, "](", open.value); }
  }

  lemma CrossingLine(l: Linker)
    requires l.decode("y") != ""
    ensures LineOut(CROSSING, l) == "[x](" + Link(l, "y") + ")`"
  {
    AtFirst(CROSSING, "]:", 2);
    assert Definition(CROSSING).None? by {
      AtChar(CROSSING, ']', 1);
      assert RunEnd(CROSSING, 0, ' ') == 0 && CROSSING[2..3] == "]" && Find(CROSSING, "]", 2) == Some(2);
      assert CROSSING[2..4] == "](";
      assert Find(CROSSING, "]", 1) == Some(2) && !At(CROSSING, "]:", 2);
    }
    CrossingIsProse();
    OneProse(CROSSING, l);
    CrossingLink(l);
  }

  const OPENING: string := "`a"

  lemma JoinTwo(lines: seq<string>)
    requires |lines| == 2
    ensures Join(lines, "\n") == lines[0] + "\n" + lines[1]
  {
    assert lines[1..] == [lines[1]];
  }

  /** Two lines outside fences, rewritten. */
  lemma TwoLines(a: string, b: string, l: Linker)
    requires '\n' !in a && '\n' !in b && Marker(a).Outside? && Marker(b).Outside?
    ensures RewrittenNotes(a + "\n" + b, l) == LineOut(a, l) + "\n" + LineOut(b, l)
  {
    var lines := [a, b];
    PartsConcat(a, b);
    PartsOfLine(b);
    assert Parts(a + "\n" + b) == lines;
    assert FenceBefore(lines, 0) == Outside && FenceBefore(lines, 1) == NextFence(FenceBefore(lines, 0), lines[0]);
    assert Rewritten(lines, 0, l) == LineOut(a, l) && Rewritten(lines, 1, l) == LineOut(b, l);
    JoinTwo(RewrittenLines(lines, 2, l));
  }

  lemma CrossingSpans()
    ensures Spans(OPENING + "\n" + CROSSING, 0) == [Range(0, 14)]
  {
    var text := OPENING + "\n" + CROSSING;
    assert |text| == 14 && text[0] == '`' && text[13] == '`' && RunEnd(text, 1, '`') == 1 && RunEnd(text, 0, '`') == 1;
    assert IsRun(text, 13, 1);
    forall k: nat | 1 <= k < 13 ensures !IsRun(text, k, 1) {
      assert text[k] != '`';
    }
    NextRunFirst(text, 1, 1, 13);
    assert SpanEnd(text, 0) == Some(14) && Spans(text, 14) == [];
  }

  lemma OpeningLine(l: Linker)
    ensures LineOut(OPENING, l) == OPENING
  {
    forall j: nat ensures !At(OPENING, SCHEME, j) {
    }
    NoLinkLine(OPENING, l);
  }

  lemma NoMarkers()
    ensures Marker(OPENING).Outside? && Marker(CROSSING).Outside?
    ensures |OPENING + "\n" + CROSSING| == 14 && '\n' !in OPENING && '\n' !in CROSSING
  {
    assert RunEnd(OPENING, 0, ' ') == 0 && RunEnd(OPENING, 1, '`') == 1;
    assert RunEnd(CROSSING, 0, ' ') == 0;
  }

  /** The notes "`a" and "[x](run:y)`" are one code span, and the link in it is rewritten. */
  lemma SpanAcrossLinesIsRewritten(l: Linker)
    requires l.decode("y") != ""
    ensures var text := OPENING + "\n" + CROSSING;
            && Spans(text, 0) == [Range(0, |text|)]
            && RewrittenNotes(text, l) == OPENING + "\n" + ("[x](" + Link(l, "y") + ")`")
  {
    CrossingSpans();
    CrossingLine(l);
    OpeningLine(l);
    NoMarkers();
    TwoLines(OPENING, CROSSING, l);
  }

  const ESCAPED: string := "\\`[x](run:y)`"

  lemma EscapedRun()
    ensures NextRun(ESCAPED, 2, 1) == Some(12)
  {
    NextRunIs(ESCAPED, 2, 1);
    assert IsRun(ESCAPED, 12, 1);
    assert forall j: nat :: 2 <= j < 12 ==> ESCAPED[j] != '`';
    var r := NextRun(ESCAPED, 2, 1);
    assert r.Some? && IsRun(ESCAPED, r.value, 1) && ESCAPED[r.value] == '`' && r.value <= 12;
  }

  lemma EscapedSegments()
    ensures Segments(ESCAPED, 0, "") == [Prose("\\"), Code(ESCAPED[1..13]), Prose("")]
  {
    SegmentsSkip(ESCAPED, 0, 1, "");
    assert "" + ESCAPED[0..1] == "\\";
    assert RunEnd(ESCAPED, 2, '`') == 2 && RunEnd(ESCAPED, 1, '`') == 2;
    EscapedRun();
    assert SpanEnd(ESCAPED, 1) == Some(13);
    assert Segments(ESCAPED, 13, "") == [Prose("")];
  }

  lemma NoBracketInline(s: string, l: Linker)
    requires ']' !in s
    ensures InlineOut(s, l) == s
  {
    var open := Find(s, "](", 0);
    if open.Some? { AtFirst(s, "](", open.value); }
    OutputEnd(s, [], 0, l);
    assert [] + [Kept(0, |s|)] == [Kept(0, |s|)] && s[0..] == s;
  }

  lemma EscapedProse(l: Linker)
    ensures SegmentsOut([Prose("\\"), Code(ESCAPED[1..13]), Prose("")], l) == "\\" + ESCAPED[1..13]
  {
    SpanOut("\\", ESCAPED[1..13], [Prose("")], l);
    OneProse("", l);
    assert [Prose("\\"), Code(ESCAPED[1..13]), Prose("")] == [Prose("\\"), Code(ESCAPED[1..13])] + [Prose("")];
    NoBracketInline("\\", l);
    NoBracketInline("", l);
  }

  lemma EscapedText()
    ensures ESCAPED == "\\" + ESCAPED[1..13]
  {
  }

  lemma NothingEscapedOpens()
    ensures EscapedSpans(ESCAPED, 0) == []
  {
    assert Escapes(ESCAPED, 0) && EscapedSpans(ESCAPED, 0) == EscapedSpans(ESCAPED, 2);
    EscapedSpansSkip(ESCAPED, 2, 12);
    assert RunEnd(ESCAPED, 12, '`') == 13;
    NextRunNone(ESCAPED, 13, 1);
  }

  lemma {:induction false} EscapedSpansSkip(text: string, i: nat, j: nat)
    requires i <= j <= |text| && forall k :: i <= k < j ==> text[k] != '`' && text[k] != '\\'
    ensures EscapedSpans(text, i) == EscapedSpans(text, j)
    decreases j - i
  {
    if i < j { EscapedSpansSkip(text, i + 1, j); }
  }

  /** The line "\`[x](run:y)`" has no code span, but comes out with its link as it is. */
  lemma EscapedTickIsTakenForCode(l: Linker)
    ensures EscapedSpans(ESCAPED, 0) == [] && LineOut(ESCAPED, l) == ESCAPED
  {
    NothingEscapedOpens();
    EscapedSegments();
    EscapedProse(l);
    assert RunEnd(ESCAPED, 0, ' ') == 0 && Definition(ESCAPED).None?;
    EscapedText();
  }

  const TICKED: string := "``` a ```"

  lemma TickedMarker()
    ensures Marker(TICKED) == Inside('`', 3) && TickedInfo(TICKED)
  {
    assert RunEnd(TICKED, 0, ' ') == 0;
    assert RunEnd(TICKED, 3, '`') == 3 && RunEnd(TICKED, 2, '`') == 3 && RunEnd(TICKED, 0, '`') == 3;
    assert TICKED[3..][3] == '`';
  }

  /** A line inside the fence the line before it opens comes out as it is, and so does that line. */
  lemma FencedPair(a: string, b: string, l: Linker)
    requires '\n' !in a && '\n' !in b && Marker(a).Inside?
    ensures RewrittenNotes(a + "\n" + b, l) == a + "\n" + b
  {
    var lines := [a, b];
    PartsConcat(a, b);
    PartsOfLine(b);
    assert Parts(a + "\n" + b) == lines;
    assert FenceBefore(lines, 0) == Outside && FenceBefore(lines, 1) == NextFence(FenceBefore(lines, 0), lines[0]);
    assert Rewritten(lines, 0, l) == a && Rewritten(lines, 1, l) == b;
    JoinTwo(RewrittenLines(lines, 2, l));
  }

  /** The notes "``` a ```" and "[x](run:y)" hold no fenced block, but come out as they are, link and all. */
  lemma TickedInfoHidesALink(l: Linker)
    ensures TickedInfo(TICKED) && RewrittenNotes(TICKED + "\n" + "[x](run:y)", l) == TICKED + "\n" + "[x](run:y)"
  {
    TickedMarker();
    FencedPair(TICKED, "[x](run:y)", l);
  }
}
