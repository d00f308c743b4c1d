/** The few JavaScript string operations the web modules share. */
module JsText {
  import opened Sequences

  /** What \s matches and String.prototype.trim removes. */
  predicate Space(ch: char) {
    || '\t' <= ch <= '\r' || ch == ' ' || ch == '\U{A0}' || ch == '\U{1680}'
    || '\U{2000}' <= ch <= '\U{200A}' || ch == '\U{2028}' || ch == '\U{2029}'
    || ch == '\U{202F}' || ch == '\U{205F}' || ch == '\U{3000}' || ch == '\U{FEFF}'
  }

  /** The white space and line terminators of ECMAScript, by code point. */
  lemma SpacesAre(ch: char)
    ensures var c := ch as int;
            Space(ch) <==> c in {9, 10, 11, 12, 13, 32, 160, 5760, 8232, 8233, 8239, 8287, 12288, 65279}
                           || 8192 <= c <= 8202
  {
  }

  function TrimStart(s: string): string {
    if s != "" && Space(s[0]) then TrimStart(s[1..]) else s
  }

  function TrimEnd(s: string): string {
    if s != "" && Space(s[|s| - 1]) then TrimEnd(s[..|s| - 1]) else s
  }

  function Trim(s: string): string {
    TrimEnd(TrimStart(s))
  }

  function Join(parts: seq<string>, sep: string): string {
    if parts == [] then "" else if |parts| == 1 then parts[0] else parts[0] + sep + Join(parts[1..], sep)
  }

  /** s.split("\n") */
  function Parts(s: string): (p: seq<string>)
    ensures p != []
  {
    if s == "" then [""]
    else if s[0] == '\n' then [""] + Parts(s[1..])
    else var rest := Parts(s[1..]); [[s[0]] + rest[0]] + rest[1..]
  }

  lemma {:induction false} PartsHaveNoNewline(s: string)
    ensures forall p <- Parts(s) :: '\n' !in p
    decreases |s|
  {
    if s != "" { PartsHaveNoNewline(s[1..]); }
  }

  /** Splitting and joining on newlines undo one another. */
  lemma {:induction false} JoinParts(s: string)
    ensures Join(Parts(s), "\n") == s
    decreases |s|
  {
    if s != "" {
      JoinParts(s[1..]);
      var rest := Parts(s[1..]);
      if s[0] == '\n' {
        assert Parts(s)[1..] == rest;
      } else {
        assert Parts(s)[1..] == rest[1..];
      }
    }
  }

  lemma {:induction false} PartsConcat(line: string, rest: string)
    requires '\n' !in line
    ensures Parts(line + "\n" + rest) == [line] + Parts(rest)
    decreases |line|
  {
    var s := line + "\n" + rest;
    if line == "" {
      assert s[1..] == rest;
    } else {
      assert s[1..] == line[1..] + "\n" + rest;
      assert line[0] in line && [line[0]] + line[1..] == line;
      PartsConcat(line[1..], rest);
    }
  }

  lemma {:induction false} PartsOfLine(line: string)
    requires '\n' !in line
    ensures Parts(line) == [line]
    decreases |line|
  {
    if line != "" {
      assert line[0] in line && [line[0]] + line[1..] == line;
      PartsOfLine(line[1..]);
    }
  }

  lemma {:induction false} PartsJoin(lines: seq<string>)
    requires lines != [] && forall l <- lines :: '\n' !in l
    ensures Parts(Join(lines, "\n")) == lines
    decreases |lines|
  {
    assert lines[0] in lines;
    if |lines| == 1 {
      PartsOfLine(lines[0]);
    } else {
      assert forall l <- lines[1..] :: l in lines;
      PartsJoin(lines[1..]);
      PartsConcat(lines[0], Join(lines[1..], "\n"));
    }
  }

  // ------------------------------------------------------------------- trimming

  predicate AllBlank(s: string) {
    forall ch <- s :: Space(ch)
  }

  /** core is what stands between the blanks at the two ends of s. */
  ghost predicate Core(s: string, core: string) {
    && core != "" && !Space(core[0]) && !Space(core[|core| - 1])
    && exists before: string, after: string :: AllBlank(before) && AllBlank(after) && s == before + core + after
  }

  lemma {:induction false} TrimStartOf(before: string, s: string)
    requires AllBlank(before) && (s == "" || !Space(s[0]))
    ensures TrimStart(before + s) == s
    decreases |before|
  {
    if before == "" {
      assert before + s == s;
    } else {
      assert (before + s)[1..] == before[1..] + s && before[0] in before;
      assert forall ch <- before[1..] :: ch in before;
      TrimStartOf(before[1..], s);
    }
  }

  lemma {:induction false} TrimEndOf(s: string, after: string)
    requires AllBlank(after) && (s == "" || !Space(s[|s| - 1]))
    ensures TrimEnd(s + after) == s
    decreases |after|
  {
    if after == "" {
      assert s + after == s;
    } else {
      var front := after[..|after| - 1];
      assert (s + after)[..|s + after| - 1] == s + front && after[|after| - 1] in after;
      assert forall ch <- front :: ch in after;
      TrimEndOf(s, front);
    }
  }

  /** trim takes exactly the blanks at the two ends. */
  lemma TrimOf(s: string, core: string)
    ensures Core(s, core) ==> Trim(s) == core != ""
    ensures AllBlank(s) ==> Trim(s) == ""
  {
    if AllBlank(s) {
      assert s + "" == s;
      TrimStartOf(s, "");
    }
    if Core(s, core) {
      var before, after :| AllBlank(before) && AllBlank(after) && s == before + core + after;
      Assoc(before, core, after);
      TrimStartOf(before, core + after);
      TrimEndOf(core, after);
    }
  }
}
