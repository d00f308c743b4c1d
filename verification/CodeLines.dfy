/**
  Splitting a highlighted tree into source lines. An element that spans a newline is cloned
  onto each line with the children that belong there; the cheap line counter has to agree.
*/
module CodeLines {
  import opened JsText
  import opened Sequences

  /** hast content: `mark` stands for everything of an element except its children. */
  datatype Node = Text(value: string) | Element(mark: string, children: seq<Node>) | Comment

  type Line = seq<Node>

  // ---------------------------------------------------------- what splitting is

  function TextLine(part: string): Line {
    if part == "" then [] else [Text(part)]
  }

  function TextLines(parts: seq<string>): (r: seq<Line>)
    ensures |r| == |parts| && forall l <- r :: |l| <= 1
  {
    if parts == [] then [] else [TextLine(parts[0])] + TextLines(parts[1..])
  }

  /** The clone of an element for one line; a line it has nothing on gets none. */
  function Clone(mark: string, fragment: Line): Line {
    if fragment == [] then [] else [Element(mark, fragment)]
  }

  function Clones(mark: string, fragments: seq<Line>): (r: seq<Line>)
    ensures |r| == |fragments| && forall l <- r :: |l| <= 1
  {
    if fragments == [] then [] else [Clone(mark, fragments[0])] + Clones(mark, fragments[1..])
  }

  /** More lines after `lines`, the first of them continuing the last. */
  function Glue(lines: seq<Line>, more: seq<Line>): (r: seq<Line>)
    requires lines != [] && more != []
    ensures r != []
  {
    lines[..|lines| - 1] + [lines[|lines| - 1] + more[0]] + more[1..]
  }

  function Split(node: Node): (r: seq<Line>)
    ensures r != []
  {
    match node
    case Text(value) => TextLines(Parts(value))
    case Element(mark, children) => Clones(mark, SplitAll(children))
    case Comment => [[]]
  }

  function SplitAll(nodes: seq<Node>): (r: seq<Line>)
    ensures r != []
  {
    if nodes == [] then [[]] else Glue(Split(nodes[0]), SplitAll(nodes[1..]))
  }

  /** The trailing-newline rule: a last empty line is not a line of its own. */
  function Trimmed(lines: seq<Line>): seq<Line> {
    if |lines| > 1 && lines[|lines| - 1] == [] then lines[..|lines| - 1] else lines
  }

  // ------------------------------------------------------- the code that does it

  lemma GlueAssoc(a: seq<Line>, b: seq<Line>, c: seq<Line>)
    requires a != [] && b != [] && c != []
    ensures Glue(Glue(a, b), c) == Glue(a, Glue(b, c))
  {
    if |b| == 1 {
      assert a[|a| - 1] + b[0] + c[0] == a[|a| - 1] + (b[0] + c[0]);
    }
  }

  lemma GlueUnit(a: seq<Line>)
    requires a != []
    ensures Glue([[]], a) == a == Glue(a, [[]])
  {
    assert [] + a[0] == a[0] && a[|a| - 1] + [] == a[|a| - 1];
  }

  lemma {:induction false} SplitAllSnoc(nodes: seq<Node>, node: Node)
    ensures SplitAll(nodes + [node]) == Glue(SplitAll(nodes), Split(node))
    decreases |nodes|
  {
    if nodes == [] {
      GlueUnit(Split(node));
      assert ([] + [node])[1..] == [];
    } else {
      assert (nodes + [node])[1..] == nodes[1..] + [node];
      SplitAllSnoc(nodes[1..], node);
      GlueAssoc(Split(nodes[0]), SplitAll(nodes[1..]), Split(node));
    }
  }

  lemma GlueSnoc(a: seq<Line>, m: seq<Line>, x: Line)
    requires a != [] && m != []
    ensures Glue(a, m + [x]) == Glue(a, m) + [x]
  {
    assert (m + [x])[1..] == m[1..] + [x];
  }

  function Onto(lines: seq<Line>, m: Line): seq<Line>
    requires lines != []
  {
    lines[..|lines| - 1] + [lines[|lines| - 1] + m]
  }

  lemma GlueOne(a: seq<Line>, more: seq<Line>)
    requires a != [] && more != []
    ensures Glue(a, more[..1]) == Onto(a, more[0])
  {
    assert more[..1] == [more[0]];
  }

  lemma GlueNext(a: seq<Line>, more: seq<Line>, i: nat)
    requires a != [] && 1 <= i < |more|
    ensures Glue(a, more[..i + 1]) == Glue(a, more[..i]) + [more[i]]
  {
    GlueSnoc(a, more[..i], more[i]);
    assert more[..i + 1] == more[..i] + [more[i]];
  }

  class Builder {
    var lines: seq<Line>

    constructor ()
      ensures lines == [[]]
    {
      lines := [[]];
    }

    method PushLine()
      modifies this
      ensures lines == old(lines) + [[]]
    {
      lines := lines + [[]];
    }

    /** current().push(node) */
    method PushNode(node: Node)
      requires lines != []
      modifies this
      ensures lines == old(lines)[..|old(lines)| - 1] + [old(lines)[|old(lines)| - 1] + [node]]
    {
      var last := |lines| - 1;
      lines := lines[..last] + [lines[last] + [node]];
    }

    /** What a node puts on one line: on a line of its own, or on the last one. */
    method AppendFragment(m: Line, anew: bool)
      requires lines != [] && |m| <= 1
      modifies this
      ensures lines == if anew then old(lines) + [m] else Onto(old(lines), m)
    {
      assert m == if m == [] then [] else [m[0]];
      assert lines[|lines| - 1] + [] == lines[|lines| - 1] && [] + m == m;
      if anew { PushLine(); }
      if m != [] { PushNode(m[0]); }
    }

    /** The two loops of appendNode, over what a node comes to line by line. */
    method AppendLines(more: seq<Line>)
      requires lines != [] && more != [] && forall m <- more :: |m| <= 1
      modifies this
      ensures lines == Glue(old(lines), more)
    {
      ghost var was := lines;
      AppendFragment(more[0], false);
      GlueOne(was, more);
      for i := 1 to |more|
        invariant lines != [] && lines == Glue(was, more[..i])
      {
        GlueNext(was, more, i);
        AppendFragment(more[i], true);
      }
      assert more[..|more|] == more;
    }

    method AppendNode(node: Node)
      requires lines != []
      modifies this
      ensures lines == Glue(old(lines), Split(node))
      decreases node
    {
      match node
      case Text(value) =>
        AppendLines(TextLines(Parts(value)));
      case Comment =>
        GlueUnit(lines);
      case Element(mark, children) =>
        var inner := new Builder();
        inner.AppendAll(children);
        AppendLines(Clones(mark, inner.lines));
    }

    /** for (const node of nodes) appendNode(lines, node), on a builder that holds one empty line. */
    method AppendAll(nodes: seq<Node>)
      requires lines == [[]]
      modifies this
      ensures lines == SplitAll(nodes)
      decreases nodes
    {
      for i := 0 to |nodes|
        invariant lines == SplitAll(nodes[..i])
      {
        AppendNode(nodes[i]);
        SplitAllNext(nodes, i);
      }
      assert nodes[..|nodes|] == nodes;
    }
  }

  lemma SplitAllNext(nodes: seq<Node>, i: nat)
    requires i < |nodes|
    ensures SplitAll(nodes[..i + 1]) == Glue(SplitAll(nodes[..i]), Split(nodes[i]))
  {
    SplitAllSnoc(nodes[..i], nodes[i]);
    assert nodes[..i + 1] == nodes[..i] + [nodes[i]];
  }

  method SplitHastLines(nodes: seq<Node>) returns (lines: seq<Line>)
    ensures lines == Trimmed(SplitAll(nodes))
  {
    var builder := new Builder();
    builder.AppendAll(nodes);
    lines := builder.lines;
    if |lines| > 1 && lines[|lines| - 1] == [] {
      lines := lines[..|lines| - 1];
    }
  }

  function Newlines(s: string): nat {
    if s == "" then 0 else (if s[|s| - 1] == '\n' then 1 else 0) + Newlines(s[..|s| - 1])
  }

  predicate EndsLine(s: string) {
    s != "" && s[|s| - 1] == '\n'
  }

  /** Lines of a text: one a newline, plus an unterminated last one. */
  function LineCount(code: string): nat {
    Newlines(code) + if code == "" || EndsLine(code) then 0 else 1
  }

  method CountLines(code: string) returns (count: nat)
    ensures count == LineCount(code)
  {
    if code == "" { return 0; }
    count := 1;
    for i := 0 to |code|
      invariant count == 1 + Newlines(code[..i])
    {
      assert code[..i + 1][..i] == code[..i];
      if code[i] == '\n' { count := count + 1; }
    }
    assert code[..|code|] == code;
    if EndsLine(code) { count := count - 1; }
  }

  // ------------------------------------------------ what splitting preserves

  /** One character with the marks of the elements around it, outermost first. */
  datatype Glyph = Glyph(ch: char, chain: seq<string>)

  /** A line break belongs to no element once its line is its own. */
  const BREAK: Glyph := Glyph('\n', [])

  function FlatText(s: string, chain: seq<string>): seq<Glyph> {
    if s == "" then [] else [if s[0] == '\n' then BREAK else Glyph(s[0], chain)] + FlatText(s[1..], chain)
  }

  function Flat(node: Node, chain: seq<string>): seq<Glyph> {
    match node
    case Text(value) => FlatText(value, chain)
    case Element(mark, children) => FlatAll(children, chain + [mark])
    case Comment => []
  }

  function FlatAll(nodes: seq<Node>, chain: seq<string>): seq<Glyph> {
    if nodes == [] then [] else Flat(nodes[0], chain) + FlatAll(nodes[1..], chain)
  }

  function Rejoin(lines: seq<Line>, chain: seq<string>): seq<Glyph>
    requires lines != []
  {
    if |lines| == 1 then FlatAll(lines[0], chain)
    else FlatAll(lines[0], chain) + [BREAK] + Rejoin(lines[1..], chain)
  }

  lemma {:induction false} FlatAllAppend(a: seq<Node>, b: seq<Node>, chain: seq<string>)
    ensures FlatAll(a + b, chain) == FlatAll(a, chain) + FlatAll(b, chain)
    decreases |a|
  {
    if a == [] {
      assert a + b == b;
    } else {
      assert (a + b)[1..] == a[1..] + b;
      FlatAllAppend(a[1..], b, chain);
    }
  }

  lemma {:induction false} RejoinGlue(a: seq<Line>, b: seq<Line>, chain: seq<string>)
    requires a != [] && b != []
    ensures Rejoin(Glue(a, b), chain) == Rejoin(a, chain) + Rejoin(b, chain)
    decreases |a|
  {
    if |a| == 1 {
      FlatAllAppend(a[0], b[0], chain);
      assert Glue(a, b)[1..] == b[1..];
    } else {
      assert Glue(a, b)[1..] == Glue(a[1..], b);
      RejoinGlue(a[1..], b, chain);
    }
  }

  lemma {:induction false} RejoinText(s: string, chain: seq<string>)
    ensures Rejoin(TextLines(Parts(s)), chain) == FlatText(s, chain)
    decreases |s|
  {
    if s != "" {
      RejoinText(s[1..], chain);
      var rest, lines := Parts(s[1..]), TextLines(Parts(s));
      if s[0] == '\n' {
        assert lines[1..] == TextLines(rest) && lines[0] == [];
      } else {
        RejoinLonger(s[0], rest, chain);
      }
    }
  }

  /** Everything after the first of the lines. */
  function AfterLine(parts: seq<string>, chain: seq<string>): seq<Glyph> {
    if |parts| <= 1 then [] else [BREAK] + Rejoin(TextLines(parts[1..]), chain)
  }

  lemma FirstLineRejoins(parts: seq<string>, chain: seq<string>)
    requires parts != []
    ensures Rejoin(TextLines(parts), chain) == FlatText(parts[0], chain) + AfterLine(parts, chain)
  {
    FlatOfPart(parts[0], chain);
    if |parts| > 1 {
      Cons(TextLine(parts[0]), TextLines(parts[1..]));
      Assoc(FlatText(parts[0], chain), [BREAK], Rejoin(TextLines(parts[1..]), chain));
    }
  }

  lemma FlatTextCons(ch: char, s: string, chain: seq<string>)
    requires ch != '\n'
    ensures FlatText([ch] + s, chain) == [Glyph(ch, chain)] + FlatText(s, chain)
  {
    Cons(ch, s);
  }

  /** A first line that is one character longer. */
  lemma RejoinLonger(ch: char, rest: seq<string>, chain: seq<string>)
    requires rest != [] && ch != '\n'
    ensures Rejoin(TextLines([[ch] + rest[0]] + rest[1..]), chain)
            == [Glyph(ch, chain)] + Rejoin(TextLines(rest), chain)
  {
    var longer := [[ch] + rest[0]] + rest[1..];
    Cons([ch] + rest[0], rest[1..]);
    FirstLineRejoins(rest, chain);
    FirstLineRejoins(longer, chain);
    FlatTextCons(ch, rest[0], chain);
    Assoc([Glyph(ch, chain)], FlatText(rest[0], chain), AfterLine(rest, chain));
  }

  lemma FlatOfPart(part: string, chain: seq<string>)
    ensures FlatAll(TextLine(part), chain) == FlatText(part, chain)
  {
  }

  lemma {:induction false} RejoinClones(mark: string, fragments: seq<Line>, chain: seq<string>)
    requires fragments != []
    ensures Rejoin(Clones(mark, fragments), chain) == Rejoin(fragments, chain + [mark])
    decreases |fragments|
  {
    assert FlatAll(Clone(mark, fragments[0]), chain) == FlatAll(fragments[0], chain + [mark]);
    if |fragments| > 1 {
      RejoinClones(mark, fragments[1..], chain);
      assert Clones(mark, fragments)[1..] == Clones(mark, fragments[1..]);
    }
  }

  /** Splitting one node keeps every character with its whole chain of enclosing elements. */
  lemma {:induction false} SplitKeepsNode(node: Node, chain: seq<string>)
    ensures Rejoin(Split(node), chain) == Flat(node, chain)
    decreases node
  {
    match node
    case Text(value) => RejoinText(value, chain);
    case Element(mark, children) =>
      RejoinClones(mark, SplitAll(children), chain);
      SplitKeepsAll(children, chain + [mark]);
    case Comment =>
  }

  lemma {:induction false} SplitKeepsAll(nodes: seq<Node>, chain: seq<string>)
    ensures Rejoin(SplitAll(nodes), chain) == FlatAll(nodes, chain)
    decreases nodes
  {
    if nodes != [] {
      SplitKeepsNode(nodes[0], chain);
      SplitKeepsAll(nodes[1..], chain);
      RejoinGlue(Split(nodes[0]), SplitAll(nodes[1..]), chain);
    }
  }

  // --------------------------------------------------- no empty leftovers

  /** What a line may hold: text that is not empty and has no newline, and elements that hold some. */
  predicate Clean(node: Node) {
    match node
    case Text(value) => value != "" && '\n' !in value
    case Element(_, children) => children != [] && forall c <- children :: Clean(c)
    case Comment => false
  }

  predicate CleanLines(lines: seq<Line>) {
    forall i, k :: 0 <= i < |lines| && 0 <= k < |lines[i]| ==> Clean(lines[i][k])
  }

  lemma {:induction false} TextLinesClean(parts: seq<string>)
    requires forall p <- parts :: '\n' !in p
    ensures CleanLines(TextLines(parts))
  {
    if parts != [] {
      assert parts[0] in parts;
      TextLinesClean(parts[1..]);
    }
  }

  lemma {:induction false} ClonesClean(mark: string, fragments: seq<Line>)
    requires CleanLines(fragments)
    ensures CleanLines(Clones(mark, fragments))
  {
    if fragments != [] {
      assert forall i, k :: 0 <= i < |fragments[1..]| && 0 <= k < |fragments[1..][i]| ==>
        fragments[1..][i][k] == fragments[i + 1][k];
      ClonesClean(mark, fragments[1..]);
      assert forall c <- fragments[0] :: Clean(c);
    }
  }

  lemma GlueClean(a: seq<Line>, b: seq<Line>)
    requires a != [] && b != [] && CleanLines(a) && CleanLines(b)
    ensures CleanLines(Glue(a, b))
  {
    var g := Glue(a, b);
    forall i, k | 0 <= i < |g| && 0 <= k < |g[i]| ensures Clean(g[i][k]) {
      if i < |a| - 1 {
        assert g[i] == a[i];
      } else if i == |a| - 1 {
        assert g[i] == a[i] + b[0];
      } else {
        assert g[i] == b[i - |a| + 1];
      }
    }
  }

  lemma {:induction false} SplitClean(node: Node)
    ensures CleanLines(Split(node))
    decreases node
  {
    match node
    case Text(value) => PartsHaveNoNewline(value); TextLinesClean(Parts(value));
    case Element(mark, children) => SplitAllClean(children); ClonesClean(mark, SplitAll(children));
    case Comment =>
  }

  lemma {:induction false} SplitAllClean(nodes: seq<Node>)
    ensures CleanLines(SplitAll(nodes))
    decreases nodes
  {
    if nodes != [] {
      SplitClean(nodes[0]);
      SplitAllClean(nodes[1..]);
      GlueClean(Split(nodes[0]), SplitAll(nodes[1..]));
    }
  }

  // ------------------------------------------------------- counting agrees

  function Chars(glyphs: seq<Glyph>): string {
    if glyphs == [] then "" else [glyphs[0].ch] + Chars(glyphs[1..])
  }

  lemma {:induction false} CharsAppend(a: seq<Glyph>, b: seq<Glyph>)
    ensures Chars(a + b) == Chars(a) + Chars(b)
    decreases |a|
  {
    if a == [] {
      assert a + b == b;
    } else {
      assert (a + b)[1..] == a[1..] + b;
      CharsAppend(a[1..], b);
    }
  }

  /** The text of the tree, as the counter is given it. */
  function Source(nodes: seq<Node>): string {
    Chars(FlatAll(nodes, []))
  }

  lemma {:induction false} NewlinesAppend(a: string, b: string)
    ensures Newlines(a + b) == Newlines(a) + Newlines(b)
    decreases |b|
  {
    if b == "" {
      assert a + b == a;
    } else {
      assert (a + b)[..|a + b| - 1] == a + b[..|b| - 1];
      NewlinesAppend(a, b[..|b| - 1]);
    }
  }

  lemma {:induction false} FlatTextChars(s: string, chain: seq<string>)
    ensures Chars(FlatText(s, chain)) == s
    decreases |s|
  {
    if s != "" { FlatTextChars(s[1..], chain); }
  }

  /** A clean node shows at least one character and no newline. */
  lemma {:induction false} CleanNodeShows(node: Node, chain: seq<string>)
    requires Clean(node)
    ensures var s := Chars(Flat(node, chain)); s != "" && '\n' !in s
    decreases node
  {
    match node
    case Text(value) => FlatTextChars(value, chain);
    case Element(mark, children) => CleanLineShows(children, chain + [mark]);
  }

  lemma {:induction false} CleanLineShows(line: Line, chain: seq<string>)
    requires forall n <- line :: Clean(n)
    ensures var s := Chars(FlatAll(line, chain)); (s == "" <==> line == []) && '\n' !in s
    decreases line
  {
    if line != [] {
      CleanNodeShows(line[0], chain);
      CleanLineShows(line[1..], chain);
      CharsAppend(Flat(line[0], chain), FlatAll(line[1..], chain));
    }
  }

  lemma {:induction false} NoNewlines(s: string)
    requires '\n' !in s
    ensures Newlines(s) == 0 && !EndsLine(s)
  {
    if s != "" { NoNewlines(s[..|s| - 1]); }
  }

  lemma GlueCounts(first: string, rest: string)
    requires '\n' !in first
    ensures var s := first + "\n" + rest;
            Newlines(s) == 1 + Newlines(rest) && s != "" && (EndsLine(s) <==> rest == "" || EndsLine(rest))
  {
    NoNewlines(first);
    NewlinesAppend(first + "\n", rest);
    NewlinesAppend(first, "\n");
    assert Newlines("\n") == 1;
  }

  /** Clean lines, rejoined: one newline between each two, and a last newline exactly when the last line is empty. */
  lemma {:induction false} RejoinCounts(lines: seq<Line>)
    requires lines != [] && CleanLines(lines)
    ensures var s := Chars(Rejoin(lines, []));
            && Newlines(s) == |lines| - 1
            && (s == "" || EndsLine(s) <==> lines[|lines| - 1] == [])
    decreases |lines|
  {
    var first := Chars(FlatAll(lines[0], []));
    forall n <- lines[0] ensures Clean(n) {
      var k :| 0 <= k < |lines[0]| && lines[0][k] == n;
    }
    CleanLineShows(lines[0], []);
    NoNewlines(first);
    if |lines| > 1 {
      forall i, k | 0 <= i < |lines[1..]| && 0 <= k < |lines[1..][i]| ensures Clean(lines[1..][i][k]) {
        assert lines[1..][i] == lines[i + 1];
      }
      RejoinCounts(lines[1..]);
      var rest := Chars(Rejoin(lines[1..], []));
      CharsAppend(FlatAll(lines[0], []) + [BREAK], Rejoin(lines[1..], []));
      CharsAppend(FlatAll(lines[0], []), [BREAK]);
      assert Chars([BREAK]) == "\n";
      GlueCounts(first, rest);
    }
  }

  /**
    The split against the tree it came from. Its lines hold no empty text and no empty
    element; rejoined with newlines they give back every character with its whole chain of
    enclosing elements, less one trailing newline; and for a text that is not empty there
    are as many lines as the counter says.
  */
  lemma LinesKeepTheTree(nodes: seq<Node>)
    ensures var lines := Trimmed(SplitAll(nodes));
            && lines != [] && CleanLines(lines)
            && Rejoin(lines, []) + (if EndsLine(Source(nodes)) then [BREAK] else []) == FlatAll(nodes, [])
            && (Source(nodes) != "" ==> |lines| == LineCount(Source(nodes)))
            && (Source(nodes) == "" ==> lines == [[]] && LineCount(Source(nodes)) == 0)
  {
    SplitKeepsAll(nodes, []);
    SplitAllClean(nodes);
    TrimmedKeeps(SplitAll(nodes));
  }

  lemma TrimmedKeeps(all: seq<Line>)
    requires all != [] && CleanLines(all)
    ensures var lines, s := Trimmed(all), Chars(Rejoin(all, []));
            && lines != [] && CleanLines(lines)
            && Rejoin(lines, []) + (if EndsLine(s) then [BREAK] else []) == Rejoin(all, [])
            && (s != "" ==> |lines| == LineCount(s))
            && (s == "" ==> lines == [[]] && LineCount(s) == 0)
  {
    var s := Chars(Rejoin(all, []));
    RejoinCounts(all);
    if EndsLine(s) {
      assert Newlines(s) > 0;
      var front := all[..|all| - 1];
      assert all == front + [[]] && Trimmed(all) == front;
      RejoinSnoc(front);
    } else {
      assert Trimmed(all) == all;
    }
  }

  lemma {:induction false} RejoinSnoc(front: seq<Line>)
    requires front != []
    ensures Rejoin(front + [[]], []) == Rejoin(front, []) + [BREAK]
    decreases |front|
  {
    assert (front + [[]])[1..] == front[1..] + [[]];
    if |front| > 1 {
      RejoinSnoc(front[1..]);
    } else {
      assert front[1..] + [[]] == [[]];
    }
  }
}
