/** Which lines of a diff are hunk headers, and what is read of the lines before the first one. */
module DiffHeaders {
  import opened Options
  import opened Decimals
  import opened JsText
  import opened Sequences
  import opened UnifiedDiff

  /** A hunk header's text: at-signs, two ranges with their counts or without, at-signs, and a heading. */
  datatype Parts =
    Parts(ats: string, left: string, leftCount: string, right: string, rightCount: string, heading: string)
  {
    function Text(): string {
      ats + (" -" + (left + (leftCount + (" +" + (right + (rightCount + (" @@" + heading)))))))
    }

    predicate Proper() {
      && |ats| >= 2 && (forall ch <- ats :: ch == '@')
      && left != "" && Digits(left) && right != "" && Digits(right) && Count(leftCount) && Count(rightCount)
    }
  }

  /** Nothing, or a comma and digits. */
  predicate Count(c: string) {
    c != "" ==> c[0] == ',' && |c| > 1 && Digits(c[1..])
  }

  lemma CountIsSkipped(c: string, rest: string)
    requires Count(c) && rest != "" && rest[0] == ' '
    ensures SkipCount(c + rest) == rest
  {
    if c == "" {
      assert c + rest == rest && !("," <= rest);
    } else {
      assert c + rest == "," + (c[1..] + rest);
      AfterBack(",", c[1..] + rest);
      TakeDigitsBack(c[1..], rest);
    }
  }

  lemma StartIsTaken(sign: string, d: string, c: string, rest: string)
    requires d != "" && Digits(d) && Count(c) && rest != "" && rest[0] == ' '
    ensures TakeStart(sign + (d + (c + rest)), sign) == Some(Read(d, rest))
  {
    AfterBack(sign, d + (c + rest));
    assert (c + rest)[0] == if c == "" then rest[0] else c[0];
    TakeDigitsBack(d, c + rest);
    CountIsSkipped(c, rest);
  }

  lemma {:induction false} DigitsSkipped(s: string, i: nat)
    requires i <= |s|
    ensures forall j :: i <= j < SkipDigits(s, i) ==> Digit(s[j])
    decreases |s| - i
  {
    if i < |s| && Digit(s[i]) { DigitsSkipped(s, i + 1); }
  }

  lemma TakenDigits(s: string)
    ensures var r := TakeDigits(s); r.Some? ==> s == r.value.digits + r.value.rest && Digits(r.value.digits)
  {
    DigitsSkipped(s, 0);
  }

  lemma SkippedCount(s: string) returns (c: string)
    ensures s == c + SkipCount(s) && Count(c)
  {
    var a := After(s, ",");
    c := "";
    if a.Some? {
      TakenDigits(a.value);
      if TakeDigits(a.value).Some? { c := "," + TakeDigits(a.value).value.digits; }
    }
  }

  lemma TakenStart(s: string, sign: string) returns (c: string)
    requires TakeStart(s, sign).Some?
    ensures var r := TakeStart(s, sign).value;
            s == sign + (r.digits + (c + r.rest)) && r.digits != "" && Digits(r.digits) && Count(c)
  {
    var a := After(s, sign).value;
    TakenDigits(a);
    c := SkippedCount(TakeDigits(a).value.rest);
  }

  lemma {:induction false} AtsTaken(s: string)
    ensures forall ch <- s[..Ats(s)] :: ch == '@'
    decreases |s|
  {
    if s != "" && s[0] == '@' {
      AtsTaken(s[1..]);
      assert s[..Ats(s)] == ['@'] + s[1..][..Ats(s[1..])];
    }
  }

  lemma {:induction false} AtsCounted(ats: string, rest: string)
    requires (forall ch <- ats :: ch == '@') && rest != "" && rest[0] != '@'
    ensures Ats(ats + rest) == |ats| && (ats + rest)[|ats|..] == rest
    decreases |ats|
  {
    if ats == "" {
      assert ats + rest == rest;
    } else {
      assert (ats + rest)[1..] == ats[1..] + rest && ats[0] in ats;
      assert forall ch <- ats[1..] :: ch in ats;
      AtsCounted(ats[1..], rest);
    }
  }

  lemma PartsAreRead(h: Parts)
    requires h.Proper()
    ensures ReadHeader(h.Text()) == Some(Header(Value(h.left), Value(h.right)))
  {
    var tail := " @@" + h.heading;
    var second := " +" + (h.right + (h.rightCount + tail));
    AtsCounted(h.ats, " -" + (h.left + (h.leftCount + second)));
    StartIsTaken(" -", h.left, h.leftCount, second);
    StartIsTaken(" +", h.right, h.rightCount, tail);
    AfterBack(" @@", h.heading);
  }

  lemma Reassembles(h: Parts, afterAts: string, afterLeft: string, afterRight: string)
    requires afterRight == " @@" + h.heading
    requires afterLeft == " +" + (h.right + (h.rightCount + afterRight))
    requires afterAts == " -" + (h.left + (h.leftCount + afterLeft))
    ensures h.Text() == h.ats + afterAts
  {
  }

  lemma AfterIs(s: string, prefix: string)
    requires After(s, prefix).Some?
    ensures s == prefix + After(s, prefix).value
  {
  }

  lemma RangesAreParts(ats: string, rest: string, left: Read, right: Read) returns (h: Parts)
    requires TakeStart(rest, " -") == Some(left) && TakeStart(left.rest, " +") == Some(right)
    requires After(right.rest, " @@").Some? && |ats| >= 2 && forall ch <- ats :: ch == '@'
    ensures h.Text() == ats + rest && h.Proper() && h.left == left.digits && h.right == right.digits
  {
    var leftCount := TakenStart(rest, " -");
    var rightCount := TakenStart(left.rest, " +");
    AfterIs(right.rest, " @@");
    h := Parts(ats, left.digits, leftCount, right.digits, rightCount, After(right.rest, " @@").value);
    Reassembles(h, rest, left.rest, right.rest);
  }

  lemma ReadIsParts(line: string) returns (h: Parts)
    requires ReadHeader(line).Some?
    ensures h.Text() == line && h.Proper() && ReadHeader(line).value == Header(Value(h.left), Value(h.right))
  {
    var ats, rest := line[..Ats(line)], line[Ats(line)..];
    AtsTaken(line);
    var left := TakeStart(rest, " -").value;
    h := RangesAreParts(ats, rest, left, TakeStart(left.rest, " +").value);
    assert line == ats + rest;
  }

  /** A line is a hunk header, with these starts, exactly when it has that form. */
  lemma HeaderIsReadExactlyWhen(line: string, left: nat, right: nat)
    ensures ReadHeader(line) == Some(Header(left, right)) <==>
            exists h: Parts :: h.Text() == line && h.Proper() && Value(h.left) == left && Value(h.right) == right
  {
    if ReadHeader(line) == Some(Header(left, right)) {
      var h := ReadIsParts(line);
    } else if h: Parts :| h.Text() == line && h.Proper() && Value(h.left) == left && Value(h.right) == right {
      PartsAreRead(h);
    }
  }

  lemma UnnumberedLine(line: string)
    requires ReadHeader(line).None?
    ensures Advance(line, START) == START
    ensures var row := RowOf(line, START); row.oldLine.None? && row.newLine.None? && row.kind != Hunk
  {
  }

  lemma RowsOfTwo(line: string, more: seq<string>, rest: seq<string>)
    requires ReadHeader(line).None?
    ensures Rows([line] + more, START) == [RowOf(line, START)] + Rows(more, START)
    ensures Rows([line] + more + rest, START) == [RowOf(line, START)] + Rows(more + rest, START)
  {
    UnnumberedLine(line);
    RowsCons(line, more, START);
    Assoc([line], more, rest);
    RowsCons(line, more + rest, START);
  }

  /**
    Until a header has given numbers no row has one, whatever the lines look like; and they leave
    the rest of the diff to be read as if they were not there.
  */
  lemma {:induction false} PreambleIsUnnumbered(preamble: seq<string>, rest: seq<string>)
    requires forall line <- preamble :: ReadHeader(line).None?
    ensures Rows(preamble + rest, START) == Rows(preamble, START) + Rows(rest, START)
    ensures forall row <- Rows(preamble, START) :: row.oldLine.None? && row.newLine.None? && row.kind != Hunk
    decreases |preamble|
  {
    if preamble == [] {
      assert preamble + rest == rest;
    } else {
      var line, more := preamble[0], preamble[1..];
      assert line in preamble && forall other <- more :: other in preamble;
      PreambleIsUnnumbered(more, rest);
      Uncons(preamble);
      RowsOfTwo(line, more, rest);
      UnnumberedLine(line);
      Assoc([RowOf(line, START)], Rows(more, START), Rows(rest, START));
    }
  }

  /** The lines of a diff are its lines, with a final newline or without; a last line without content needs one. */
  lemma LinesOfADiff(lines: seq<string>)
    requires lines != [] && forall line <- lines :: '\n' !in line
    ensures RawLines(Join(lines, "\n") + "\n") == lines
    ensures lines[|lines| - 1] != "" ==> RawLines(Join(lines, "\n")) == lines
  {
    PartsJoin(lines);
    JoinSnoc(lines);
    assert forall line <- lines + [""] :: line in lines || line == "";
    PartsJoin(lines + [""]);
  }
}
