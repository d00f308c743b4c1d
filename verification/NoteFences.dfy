/** What opens and closes a fenced block of the notes, by its text, and what becomes of the block. */
module NoteFences {
  import opened Options
  import opened JsText
  import opened Notes

  /** The line begins with at most three spaces and n of ch, a backtick or a tilde, and no more of it. */
  ghost predicate MarkerAt(line: string, k: nat, ch: char, n: nat) {
    && k <= 3 && k + n <= |line| && n >= 3 && (ch == '`' || ch == '~')
    && (forall j :: 0 <= j < k ==> line[j] == ' ')
    && (forall j :: k <= j < k + n ==> line[j] == ch)
    && (k + n < |line| ==> line[k + n] != ch)
  }

  ghost predicate Opens(line: string, ch: char, n: nat) {
    exists k: nat :: MarkerAt(line, k, ch, n)
  }

  /** A marker of ch, at least as long, and behind it nothing but white space. */
  ghost predicate Ends(line: string, ch: char, length: nat) {
    exists k: nat, n: nat :: n >= length && MarkerAt(line, k, ch, n) && AllBlank(line[k + n..])
  }

  lemma RunIs(line: string, i: nat, ch: char, e: nat)
    requires i <= |line|
    ensures RunEnd(line, i, ch) == e <==>
            i <= e <= |line| && (forall j :: i <= j < e ==> line[j] == ch) && (e < |line| ==> line[e] != ch)
  {
    RunEndIs(line, i, ch);
  }

  lemma MarkerIs(line: string, k: nat, ch: char, n: nat)
    requires MarkerAt(line, k, ch, n)
    ensures Marker(line) == Inside(ch, n) && RunEnd(line, 0, ' ') == k
  {
    RunIs(line, 0, ' ', k);
    RunIs(line, k, ch, k + n);
  }

  lemma MarkerStands(line: string)
    requires Marker(line).Inside?
    ensures MarkerAt(line, RunEnd(line, 0, ' '), Marker(line).ch, Marker(line).length)
  {
    var k := RunEnd(line, 0, ' ');
    RunIs(line, 0, ' ', k);
    RunIs(line, k, line[k], RunEnd(line, k, line[k]));
  }

  /** A line opens a fence of n of a character exactly when it begins like that. */
  lemma OpensExactlyWhenMarked(line: string, ch: char, n: nat)
    ensures Marker(line) == Inside(ch, n) <==> Opens(line, ch, n)
  {
    if Marker(line) == Inside(ch, n) {
      MarkerStands(line);
    } else if k: nat :| MarkerAt(line, k, ch, n) {
      MarkerIs(line, k, ch, n);
    }
  }

  /** What is trimmed of a line with a marker. */
  lemma TrimmedMarker(line: string, k: nat, ch: char, n: nat)
    requires MarkerAt(line, k, ch, n)
    ensures Trim(line) == seq(n, _ => ch) <==> AllBlank(line[k + n..])
  {
    var core, after := line[k..k + n], line[k + n..];
    assert core == seq(n, _ => ch) && line == line[..k] + core + after;
    assert AllBlank(line[..k]);
    assert line[..k] + core + after == line[..k] + (core + after);
    TrimStartOf(line[..k], core + after);
    if AllBlank(after) {
      TrimEndOf(core, after);
    } else {
      TrimKeeps(core, after);
    }
  }

  /** Text that is not blank leaves something of itself. */
  lemma {:induction false} TrimKeeps(core: string, after: string)
    requires !AllBlank(after)
    ensures |TrimEnd(core + after)| > |core|
    decreases |after|
  {
    var front := after[..|after| - 1];
    assert (core + after)[..|core + after| - 1] == core + front;
    if Space(after[|after| - 1]) {
      assert after == front + [after[|after| - 1]];
      TrimKeeps(core, front);
    }
  }

  /** A line closes a fence exactly when it is nothing but a marker of its character, at least as long. */
  lemma ClosesExactlyWhenEnding(line: string, ch: char, length: nat)
    ensures Closes(Inside(ch, length), line) <==> Ends(line, ch, length)
  {
    if Closes(Inside(ch, length), line) {
      MarkerStands(line);
      TrimmedMarker(line, RunEnd(line, 0, ' '), ch, Marker(line).length);
    } else if k: nat, n: nat :| n >= length && MarkerAt(line, k, ch, n) && AllBlank(line[k + n..]) {
      MarkerIs(line, k, ch, n);
      TrimmedMarker(line, k, ch, n);
    }
  }

  // ----------------------------------------------------------------------- blocks

  /** Line i opens a block with n of ch, and line m is the first behind it that ends it; m may be past the last line. */
  ghost predicate Block(lines: seq<string>, i: nat, m: nat, ch: char, n: nat) {
    && i < m <= |lines| && Opens(lines[i], ch, n)
    && (forall j :: i < j < m ==> !Ends(lines[j], ch, n))
    && (m < |lines| ==> Ends(lines[m], ch, n))
  }

  lemma {:induction false} InsideABlock(lines: seq<string>, i: nat, m: nat, ch: char, n: nat, j: nat)
    requires Block(lines, i, m, ch, n) && FenceBefore(lines, i) == Outside && i < j <= m
    ensures FenceBefore(lines, j) == Inside(ch, n)
    decreases j
  {
    if j == i + 1 {
      OpensExactlyWhenMarked(lines[i], ch, n);
    } else {
      InsideABlock(lines, i, m, ch, n, j - 1);
      ClosesExactlyWhenEnding(lines[j - 1], ch, n);
    }
  }

  /** A block comes out as it went in, its first and last lines included, and behind it the rewriting goes on. */
  lemma BlocksAreKept(lines: seq<string>, i: nat, m: nat, ch: char, n: nat, l: Linker)
    requires Block(lines, i, m, ch, n) && FenceBefore(lines, i) == Outside
    ensures forall j :: i <= j <= m && j < |lines| ==> RewrittenLines(lines, |lines|, l)[j] == lines[j]
    ensures m < |lines| ==> FenceBefore(lines, m + 1) == Outside
  {
    OpensExactlyWhenMarked(lines[i], ch, n);
    forall j | i < j <= m ensures FenceBefore(lines, j) == Inside(ch, n) { InsideABlock(lines, i, m, ch, n, j); }
    if m < |lines| { ClosesExactlyWhenEnding(lines[m], ch, n); }
  }

  /** A line outside every block, and that opens none, is rewritten. */
  lemma OtherLinesAreRewritten(lines: seq<string>, i: nat, l: Linker)
    requires i < |lines| && FenceBefore(lines, i) == Outside && forall ch, n: nat :: !Opens(lines[i], ch, n)
    ensures RewrittenLines(lines, |lines|, l)[i] == LineOut(lines[i], l) && FenceBefore(lines, i + 1) == Outside
  {
    var m := Marker(lines[i]);
    if m.Inside? { OpensExactlyWhenMarked(lines[i], m.ch, m.length); }
  }
}
