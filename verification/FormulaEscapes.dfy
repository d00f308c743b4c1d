/** Which cells an export marks as text, and what it writes for every kind of cell. */
module FormulaEscapes {
  import opened Decimals
  import opened Delimited
  import opened JsObjects

  /** Nothing, or an e in either case, a sign or none, and digits. */
  predicate Exponent(e: string) {
    e == "" || (e[0] in "eE" &&
                var digits := if |e| > 1 && e[1] in "+-" then e[2..] else e[1..];
                digits != "" && Digits(digits))
  }

  /** A number as it may be written in a cell. */
  datatype Number = Number(sign: string, whole: string, dot: string, fraction: string, exponent: string) {
    function Text(): string {
      sign + (whole + (dot + (fraction + exponent)))
    }

    /** A sign or none, digits before or behind a point or both, and an exponent or none. */
    predicate Proper() {
      && (sign != "" ==> |sign| == 1 && sign[0] in "+-")
      && Digits(whole) && Digits(fraction) && (dot == "" || dot == ".")
      && (if whole != "" then dot == "" ==> fraction == "" else dot == "." && fraction != "")
      && Exponent(exponent)
    }
  }

  lemma {:induction false} DigitsEndIs(s: string, i: nat, k: nat)
    requires i <= |s|
    ensures SkipDigits(s, i) == k <==> i <= k <= |s| && Digits(s[i..k]) && (k == |s| || !Digit(s[k]))
    decreases |s| - i
  {
    if i < |s| && Digit(s[i]) {
      DigitsEndIs(s, i + 1, k);
      if i < k <= |s| { assert s[i..k] == [s[i]] + s[i + 1..k]; }
    } else if i < k <= |s| {
      assert s[i..k][0] == s[i];
    }
  }

  /** Where the parts of a number stand in a text: i behind the sign, then the ends of the other parts. */
  predicate PartsEnd(s: string, i: nat, whole: nat, dot: nat, mantissa: nat) {
    && i == (if s != "" && s[0] in "+-" then 1 else 0) <= |s|
    && whole == SkipDigits(s, i)
    && dot == (if whole < |s| && s[whole] == '.' then whole + 1 else whole)
    && mantissa == SkipDigits(s, dot)
  }

  lemma ExponentIs(s: string, m: nat)
    requires m <= |s|
    ensures Exponent(s[m..]) <==>
            m == |s| || (s[m] in "eE" &&
              var sign := if m + 1 < |s| && s[m + 1] in "+-" then m + 2 else m + 1;
              sign < |s| && SkipDigits(s, sign) == |s|)
  {
    if m < |s| {
      var e := s[m..];
      assert e[0] == s[m] && (|e| > 1 ==> e[1] == s[m + 1] && e[2..] == s[m + 2..]) && e[1..] == s[m + 1..];
      var sign := if m + 1 < |s| && s[m + 1] in "+-" then m + 2 else m + 1;
      DigitsEndIs(s, sign, |s|);
      assert s[sign..|s|] == s[sign..];
    }
  }

  lemma PlainNumberIs(s: string, i: nat, whole: nat, dot: nat, mantissa: nat)
    requires PartsEnd(s, i, whole, dot, mantissa)
    ensures PlainNumber(s) <==> (whole > i || mantissa > dot > whole) && Exponent(s[mantissa..])
  {
    ExponentIs(s, mantissa);
  }

  lemma PartsOf(s: string, i: nat, whole: nat, dot: nat, mantissa: nat) returns (n: Number)
    requires PartsEnd(s, i, whole, dot, mantissa)
    requires (whole > i || mantissa > dot > whole) && Exponent(s[mantissa..])
    ensures n.Text() == s && n.Proper()
  {
    DigitsEndIs(s, i, whole);
    DigitsEndIs(s, dot, mantissa);
    n := Number(s[..i], s[i..whole], s[whole..dot], s[dot..mantissa], s[mantissa..]);
    Glued(s, i, whole, dot, mantissa);
    assert dot > whole ==> s[whole..dot] == ".";
    if dot == whole { NoMoreDigits(s, whole, mantissa); }
  }

  lemma NoMoreDigits(s: string, whole: nat, mantissa: nat)
    requires whole <= |s| && mantissa == SkipDigits(s, whole) && (whole == |s| || !Digit(s[whole]))
    ensures mantissa == whole
  {
  }

  lemma Glued(s: string, i: nat, w: nat, d: nat, m: nat)
    requires i <= w <= d <= m <= |s|
    ensures s[..i] + (s[i..w] + (s[w..d] + (s[d..m] + s[m..]))) == s
  {
  }

  /** Where the parts of a number stand in its text. */
  lemma PlacesOf(n: Number, s: string, i: nat, w: nat, d: nat, m: nat)
    requires s == n.Text() && i == |n.sign| && w == i + |n.whole| && d == w + |n.dot| && m == d + |n.fraction|
    ensures m <= |s| && s[..i] == n.sign && s[i..w] == n.whole && s[w..d] == n.dot && s[d..m] == n.fraction
    ensures s[m..] == n.exponent
  {
  }

  lemma ExponentBegins(n: Number, s: string, m: nat)
    requires n.Proper() && m <= |s| && s[m..] == n.exponent
    ensures m < |s| ==> s[m] in "eE" && !Digit(s[m]) && s[m] != '.'
  {
    if m < |s| { assert s[m] == n.exponent[0]; }
  }

  lemma PlacesEnd(n: Number, s: string, i: nat, w: nat, d: nat, m: nat)
    requires n.Proper() && i == |n.sign| && i <= w <= d <= m <= |s|
    requires s[..i] == n.sign && s[i..w] == n.whole && s[w..d] == n.dot && s[d..m] == n.fraction && s[m..] == n.exponent
    ensures PartsEnd(s, i, w, d, m)
  {
    ExponentBegins(n, s, m);
    assert i > 0 ==> s[0] == n.sign[0];
    assert w > i ==> s[i] == n.whole[0];
    assert d > w ==> s[w] == n.dot[0];
    DigitsEndIs(s, i, w);
    DigitsEndIs(s, d, m);
  }

  lemma NumberIsPlain(n: Number)
    requires n.Proper()
    ensures PlainNumber(n.Text())
  {
    var s, i := n.Text(), |n.sign|;
    var w := i + |n.whole|;
    var d := w + |n.dot|;
    var m := d + |n.fraction|;
    PlacesOf(n, s, i, w, d, m);
    PlacesEnd(n, s, i, w, d, m);
    PlainNumberIs(s, i, w, d, m);
  }

  lemma PlainIsNumber(s: string) returns (n: Number)
    requires PlainNumber(s)
    ensures n.Text() == s && n.Proper()
  {
    var i := if s != "" && s[0] in "+-" then 1 else 0;
    var whole := SkipDigits(s, i);
    var dot := if whole < |s| && s[whole] == '.' then whole + 1 else whole;
    var mantissa := SkipDigits(s, dot);
    PlainNumberIs(s, i, whole, dot, mantissa);
    n := PartsOf(s, i, whole, dot, mantissa);
  }

  /** The text is a number written down. */
  ghost predicate IsNumber(s: string) {
    exists n: Number :: n.Text() == s && n.Proper()
  }

  lemma PlainExactlyWhenNumber(s: string)
    ensures PlainNumber(s) <==> IsNumber(s)
  {
    if PlainNumber(s) {
      var n := PlainIsNumber(s);
    } else if n: Number :| n.Text() == s && n.Proper() {
      NumberIsPlain(n);
    }
  }

  lemma NumbersBegin(n: Number)
    requires n.Proper()
    ensures n.Text() != "" && n.Text()[0] !in "=@\t\r"
  {
    var s := n.Text();
    assert s[0] == if n.sign != "" then n.sign[0] else if n.whole != "" then n.whole[0] else n.dot[0];
  }

  /**
    What an export does to a cell that a spreadsheet would take for a formula: an apostrophe goes in
    front of it, if it begins with one of the six characters and is not a number; any other cell is
    written as it is.
  */
  lemma EscapedExactlyWhenFormula(value: string)
    ensures Escape(value) ==
            if value != "" && value[0] in ['=', '+', '-', '@', '\t', '\r'] && !IsNumber(value)
            then ['\''] + value else value
  {
    PlainExactlyWhenNumber(value);
    if n: Number :| n.Text() == value && n.Proper() { NumbersBegin(n); }
  }

  /** So no cell of an export begins like a formula, but for numbers with a sign. */
  lemma NoCellIsAFormula(value: string)
    ensures Escape(value) == "" || Escape(value)[0] !in ['=', '+', '-', '@', '\t', '\r'] || IsNumber(Escape(value))
  {
    EscapedExactlyWhenFormula(value);
  }

  /** A column that the row does not own, but every plain object answers for, and what it answers. */
  predicate Answers(column: string, text: string) {
    || (column == "__proto__" && text == "{}")
    || (column == "constructor" && text == "function Object() { [native code] }")
    || (column in ["toString", "toLocaleString", "valueOf", "hasOwnProperty", "isPrototypeOf", "propertyIsEnumerable",
                   "__defineGetter__", "__defineSetter__", "__lookupGetter__", "__lookupSetter__"]
        && text == "function " + column + "() { [native code] }")
  }

  /**
    What a cell is written as: a text as itself, any other value as its rendering, a null as nothing,
    and a column the row does not own as the prototype answers it, if it has one that does, or as nothing.
  */
  lemma CellsAreWritten(row: Row, column: string)
    ensures column in row.own ==>
              CsvValue(row, column) == match row.own[column]
                case Null => ""
                case Text(t) => t
                case Rendered(t) => t
    ensures column !in row.own && !row.inherits ==> CsvValue(row, column) == ""
    ensures column !in row.own && row.inherits ==>
              Answers(column, CsvValue(row, column)) || (CsvValue(row, column) == "" && forall t :: !Answers(column, t))
  {
  }
}
