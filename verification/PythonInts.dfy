/** Python's int(text, 16) over bytes, as the storage proxy reads the size of a chunk. */
module PythonInts {
  import opened Options

  type byte = b: nat | b < 256
  type Bytes = seq<byte>

  const UNDERSCORE: byte := 95

  predicate White(b: byte) {
    b == 32 || 9 <= b <= 13
  }

  function LStrip(s: Bytes): Bytes {
    if s != [] && White(s[0]) then LStrip(s[1..]) else s
  }

  function RStrip(s: Bytes): Bytes {
    if s != [] && White(s[|s| - 1]) then RStrip(s[..|s| - 1]) else s
  }

  function Strip(s: Bytes): Bytes {
    RStrip(LStrip(s))
  }

  function HexDigit(b: byte): Option<nat> {
    if 48 <= b <= 57 then Some(b - 48)
    else if 65 <= b <= 70 then Some(b - 55)
    else if 97 <= b <= 102 then Some(b - 87)
    else None
  }

  /** Hex digits with single underscores between them. */
  function HexDigits(s: Bytes): Option<nat> {
    if s == [] then None else
      var d, front := HexDigit(s[|s| - 1]), s[..|s| - 1];
      if d.None? || front == [] then d else
        var high := HexDigits(if front[|front| - 1] == UNDERSCORE then front[..|front| - 1] else front);
        if high.None? then None else Some(16 * high.value + d.value)
  }

  /** The digits behind a base prefix, where there is one. */
  function Unprefixed(u: Bytes): Bytes {
    if |u| >= 2 && u[0] == 48 && (u[1] == 120 || u[1] == 88)
    then (if |u| > 2 && u[2] == UNDERSCORE then u[3..] else u[2..]) else u
  }

  /** int(s, 16); None is ValueError. */
  function ParseInt16(s: Bytes): Option<int> {
    var t := Strip(s);
    var signed := t != [] && (t[0] == 43 || t[0] == 45);
    var n := HexDigits(Unprefixed(if signed then t[1..] else t));
    if n.None? then None else
      var v: int := if signed && t[0] == 45 then 0 - n.value else n.value;
      Some(v)
  }

  // ------------------------------------------------------- how integers are written

  const LOWER: Bytes := [48, 49, 50, 51, 52, 53, 54, 55, 56, 57, 97, 98, 99, 100, 101, 102]
  const UPPER: Bytes := [48, 49, 50, 51, 52, 53, 54, 55, 56, 57, 65, 66, 67, 68, 69, 70]

  /** s writes n in base 16: either letter case in each place, any number of leading zeros. */
  predicate Spells(s: Bytes, n: nat) {
    && s != []
    && (s[|s| - 1] == LOWER[n % 16] || s[|s| - 1] == UPPER[n % 16])
    && if |s| == 1 then n < 16 else Spells(s[..|s| - 1], n / 16)
  }

  /** The shortest way to write n. */
  function Hex(n: nat): (s: Bytes)
    ensures Spells(s, n)
  {
    if n < 16 then [LOWER[n]] else
      var high := Hex(n / 16);
      assert (high + [LOWER[n % 16]])[..|high|] == high;
      high + [LOWER[n % 16]]
  }

  /** Every underscore stands between two other bytes. */
  predicate Grouped(s: Bytes) {
    forall i :: 0 <= i < |s| && s[i] == UNDERSCORE ==>
      0 < i < |s| - 1 && s[i - 1] != UNDERSCORE && s[i + 1] != UNDERSCORE
  }

  function Ungrouped(s: Bytes): Bytes {
    if s == [] then [] else
      Ungrouped(s[..|s| - 1]) + if s[|s| - 1] == UNDERSCORE then [] else [s[|s| - 1]]
  }

  lemma DigitSpells(b: byte, d: nat)
    requires d < 16
    ensures HexDigit(b) == Some(d) <==> b == LOWER[d] || b == UPPER[d]
  {
  }

  /** The number of a text one digit longer. */
  lemma SpellsSnoc(s: Bytes, b: byte, n: nat)
    requires s != []
    ensures Spells(s + [b], n) <==> HexDigit(b) == Some(n % 16) && Spells(s, n / 16)
  {
    assert (s + [b])[..|s|] == s;
    DigitSpells(b, n % 16);
  }

  lemma SpellsOne(b: byte, n: nat)
    ensures Spells([b], n) <==> HexDigit(b) == Some(n)
  {
    if n < 16 { DigitSpells(b, n); }
  }

  /** A text that spells a number is nothing but digits. */
  lemma {:induction false} SpelledIsPlain(s: Bytes, n: nat)
    requires Spells(s, n)
    ensures (forall b <- s :: HexDigit(b).Some?) && Grouped(s) && Ungrouped(s) == s
    decreases |s|
  {
    var front, b := s[..|s| - 1], s[|s| - 1];
    DigitSpells(b, n % 16);
    assert s == front + [b];
    if front != [] { SpelledIsPlain(front, n / 16); }
  }

  lemma GroupedOne(b: byte, n: nat)
    ensures HexDigits([b]) == Some(n) <==> Grouped([b]) && Spells(Ungrouped([b]), n)
  {
    SpellsOne(b, n);
    assert [b][..0] == [];
    assert Ungrouped([b]) == if b == UNDERSCORE then [] else [b];
  }

  lemma GroupedSnoc(front: Bytes, b: byte)
    requires front != [] && front[|front| - 1] != UNDERSCORE && b != UNDERSCORE
    ensures Grouped(front + [b]) <==> Grouped(front)
    ensures Grouped(front + [UNDERSCORE, b]) <==> Grouped(front)
  {
    var s, t := front + [b], front + [UNDERSCORE, b];
    assert forall i :: 0 <= i < |front| ==> s[i] == front[i] && t[i] == front[i];
    assert s[|front|] == b && t[|front|] == UNDERSCORE && t[|front| + 1] == b;
  }

  lemma UngroupedSnoc(front: Bytes, b: byte)
    requires b != UNDERSCORE
    ensures Ungrouped(front + [b]) == Ungrouped(front) + [b]
    ensures Ungrouped(front + [UNDERSCORE, b]) == Ungrouped(front) + [b]
  {
    var s, t := front + [b], front + [UNDERSCORE, b];
    assert s[..|s| - 1] == front && t[..|t| - 1] == front + [UNDERSCORE];
    assert (front + [UNDERSCORE])[..|front|] == front;
  }

  lemma Sixteens(high: nat, d: nat, n: nat)
    requires d < 16
    ensures 16 * high + d == n <==> d == n % 16 && high == n / 16
  {
  }

  /** One more digit of a number already read; s is that number and an underscore or nothing. */
  lemma ReadsSnoc(front: Bytes, s: Bytes, b: byte, n: nat)
    requires front != [] && front[|front| - 1] != UNDERSCORE && (s == front || s == front + [UNDERSCORE])
    ensures HexDigits(s + [b]) == Some(n) <==> HexDigit(b) == Some(n % 16) && HexDigits(front) == Some(n / 16)
  {
    var t := s + [b];
    assert t[..|t| - 1] == s && t[|t| - 1] == b;
    assert (if s[|s| - 1] == UNDERSCORE then s[..|s| - 1] else s) == front;
    if HexDigit(b).Some? && HexDigits(front).Some? { Sixteens(HexDigits(front).value, HexDigit(b).value, n); }
  }

  lemma UngroupedStep(front: Bytes, s: Bytes, b: byte, n: nat)
    requires front != [] && front[|front| - 1] != UNDERSCORE && b != UNDERSCORE
    requires s == front + [b] || s == front + [UNDERSCORE, b]
    ensures Spells(Ungrouped(s), n) <==> HexDigit(b) == Some(n % 16) && Spells(Ungrouped(front), n / 16)
  {
    UngroupedSnoc(front, b);
    UngroupedSnoc(front[..|front| - 1], front[|front| - 1]);
    assert front[..|front| - 1] + [front[|front| - 1]] == front;
    SpellsSnoc(Ungrouped(front), b, n);
  }

  /** A digit after `front`, with or without an underscore between them. */
  lemma GroupedStep(front: Bytes, s: Bytes, b: byte, n: nat)
    requires front != [] && front[|front| - 1] != UNDERSCORE && b != UNDERSCORE
    requires s == front + [b] || s == front + [UNDERSCORE, b]
    requires HexDigits(front) == Some(n / 16) <==> Grouped(front) && Spells(Ungrouped(front), n / 16)
    ensures HexDigits(s) == Some(n) <==> Grouped(s) && Spells(Ungrouped(s), n)
  {
    ReadsSnoc(front, s[..|s| - 1], b, n);
    assert s == s[..|s| - 1] + [b];
    GroupedSnoc(front, b);
    UngroupedStep(front, s, b, n);
  }

  lemma NotGrouped(s: Bytes)
    requires s != [] && (s[|s| - 1] == UNDERSCORE || s[0] == UNDERSCORE)
    ensures !Grouped(s)
  {
  }

  /** The digits are read as the number they spell once their underscores, one between two digits, are left out. */
  lemma {:induction false} DigitsReadExactlyWhen(s: Bytes, n: nat)
    ensures HexDigits(s) == Some(n) <==> Grouped(s) && Spells(Ungrouped(s), n)
    decreases |s|
  {
    if s == [] {
    } else if |s| == 1 {
      assert s == [s[0]];
      GroupedOne(s[0], n);
    } else {
      var b, front := s[|s| - 1], s[..|s| - 1];
      var before := front[..|front| - 1];
      if b == UNDERSCORE {
        NotGrouped(s);
      } else if front[|front| - 1] != UNDERSCORE {
        DigitsReadExactlyWhen(front, n / 16);
        assert s == front + [b];
        GroupedStep(front, s, b, n);
      } else if before == [] {
        NotGrouped(s);
      } else if before[|before| - 1] == UNDERSCORE {
        assert s[|s| - 2] == UNDERSCORE && s[|s| - 3] == UNDERSCORE;
      } else {
        DigitsReadExactlyWhen(before, n / 16);
        assert s == before + [UNDERSCORE, b];
        GroupedStep(before, s, b, n);
      }
    }
  }

  /** Every byte of a number that is read is a digit or an underscore. */
  lemma {:induction false} DigitsOnly(s: Bytes)
    requires HexDigits(s).Some?
    ensures forall b <- s :: HexDigit(b).Some? || b == UNDERSCORE
    decreases |s|
  {
    var front := s[..|s| - 1];
    assert s == front + [s[|s| - 1]];
    if front != [] {
      if front[|front| - 1] == UNDERSCORE {
        assert front == front[..|front| - 1] + [UNDERSCORE];
        DigitsOnly(front[..|front| - 1]);
      } else {
        DigitsOnly(front);
      }
    }
  }

  // ------------------------------------------------------------------- literals

  function Abs(v: int): nat {
    if v < 0 then -v else v
  }

  /** Tab, line feed, vertical tab, form feed, carriage return and space. */
  predicate Blanks(s: Bytes) {
    forall b <- s :: b in [9, 10, 11, 12, 13, 32]
  }

  predicate AllWhite(s: Bytes) {
    forall b <- s :: White(b)
  }

  lemma BlanksAreWhite(s: Bytes)
    ensures Blanks(s) <==> AllWhite(s)
  {
    forall b: byte ensures b in [9, 10, 11, 12, 13, 32] <==> White(b) {
    }
  }

  /** 0x or 0X, with an underscore after it or not. */
  predicate BasePrefix(p: Bytes) {
    (|p| == 2 || (|p| == 3 && p[2] == UNDERSCORE)) && p[0] == 48 && (p[1] == 120 || p[1] == 88)
  }

  predicate Sign(sign: Bytes) {
    sign != [] ==> |sign| == 1 && (sign[0] == 43 || sign[0] == 45)
  }

  predicate Minus(sign: Bytes) {
    sign != [] && sign[0] == 45
  }

  /** An integer as it may stand in a text. */
  datatype Literal = Literal(before: Bytes, sign: Bytes, prefix: Bytes, digits: Bytes, after: Bytes) {
    function Text(): Bytes {
      before + (sign + (prefix + digits)) + after
    }

    /** Blanks around a sign and a base prefix, each of which may be missing. */
    predicate Framed() {
      && Blanks(before) && Blanks(after) && Sign(sign) && (prefix == [] || BasePrefix(prefix))
    }

    /** And digits that spell v. */
    predicate Denotes(v: int) {
      && Framed() && Grouped(digits) && Spells(Ungrouped(digits), Abs(v))
      && if Minus(sign) then v <= 0 else v >= 0
    }
  }

  lemma {:induction false} LStripIs(s: Bytes) returns (before: Bytes)
    ensures s == before + LStrip(s) && AllWhite(before) && (LStrip(s) == [] || !White(LStrip(s)[0]))
    decreases |s|
  {
    if s != [] && White(s[0]) {
      var rest := LStripIs(s[1..]);
      before := [s[0]] + rest;
    } else {
      before := [];
    }
  }

  lemma {:induction false} RStripIs(s: Bytes) returns (after: Bytes)
    ensures s == RStrip(s) + after && AllWhite(after)
    ensures RStrip(s) == [] || !White(RStrip(s)[|RStrip(s)| - 1])
    decreases |s|
  {
    if s != [] && White(s[|s| - 1]) {
      var rest := RStripIs(s[..|s| - 1]);
      after := rest + [s[|s| - 1]];
    } else {
      after := [];
    }
  }

  lemma {:induction false} LStripDrops(before: Bytes, s: Bytes)
    requires AllWhite(before) && s != [] && !White(s[0])
    ensures LStrip(before + s) == s
    decreases |before|
  {
    if before == [] {
      assert before + s == s;
    } else {
      assert (before + s)[1..] == before[1..] + s;
      assert before[0] in before && forall b <- before[1..] :: b in before;
      LStripDrops(before[1..], s);
    }
  }

  lemma {:induction false} RStripDrops(s: Bytes, after: Bytes)
    requires AllWhite(after) && s != [] && !White(s[|s| - 1])
    ensures RStrip(s + after) == s
    decreases |after|
  {
    if after == [] {
      assert s + after == s;
    } else {
      var front := after[..|after| - 1];
      assert (s + after)[..|s + after| - 1] == s + front;
      assert after[|after| - 1] in after && forall b <- front :: b in after;
      RStripDrops(s, front);
    }
  }

  lemma StripDrops(before: Bytes, s: Bytes, after: Bytes)
    requires AllWhite(before) && AllWhite(after)
    requires s != [] && !White(s[0]) && !White(s[|s| - 1])
    ensures Strip(before + s + after) == s
  {
    assert before + s + after == before + (s + after);
    LStripDrops(before, s + after);
    RStripDrops(s, after);
  }

  lemma Unmarked(u: Bytes)
    requires forall b <- u :: HexDigit(b).Some? || b == UNDERSCORE
    ensures Unprefixed(u) == u
  {
    assert |u| > 1 ==> u[1] in u;
  }

  lemma Prefixed(prefix: Bytes, digits: Bytes)
    requires HexDigits(digits).Some? && Grouped(digits) && (prefix == [] || BasePrefix(prefix))
    ensures Unprefixed(prefix + digits) == digits
  {
    DigitsOnly(digits);
    assert digits[0] != UNDERSCORE;
    var u := prefix + digits;
    if prefix == [] {
      Unmarked(digits);
      assert u == digits;
    } else {
      assert u[0] == prefix[0] && u[1] == prefix[1];
      assert u[2] == if |prefix| > 2 then UNDERSCORE else digits[0];
      assert u[|prefix|..] == digits;
    }
  }

  /** Behind its sign a literal begins with a digit, and it ends with one. */
  lemma UnsignedEnds(prefix: Bytes, digits: Bytes)
    requires HexDigits(digits).Some? && Grouped(digits) && (prefix == [] || BasePrefix(prefix))
    ensures var u := prefix + digits;
            u != [] && HexDigit(u[0]).Some? && HexDigit(u[|u| - 1]).Some?
  {
    DigitsOnly(digits);
    var u := prefix + digits;
    assert digits[|digits| - 1] in digits && digits[0] in digits;
    assert u[|u| - 1] == digits[|digits| - 1];
    assert u[0] == if prefix == [] then digits[0] else prefix[0];
  }

  /** A sign before a text that begins and ends with a digit is found and taken off. */
  lemma SignIsTaken(before: Bytes, sign: Bytes, u: Bytes, after: Bytes)
    requires AllWhite(before) && AllWhite(after) && Sign(sign)
    requires u != [] && HexDigit(u[0]).Some? && HexDigit(u[|u| - 1]).Some?
    ensures var n := HexDigits(Unprefixed(u));
            && ParseInt16(before + (sign + u) + after).Some? == n.Some?
            && (n.Some? ==> Abs(ParseInt16(before + (sign + u) + after).value) == n.value)
            && (n.Some? ==> if Minus(sign) then ParseInt16(before + (sign + u) + after).value <= 0
                            else ParseInt16(before + (sign + u) + after).value >= 0)
  {
    var t := sign + u;
    assert t[|t| - 1] == u[|u| - 1] && t[0] == if sign == [] then u[0] else sign[0];
    StripDrops(before, t, after);
    assert sign == [] ==> t == u;
    assert sign != [] ==> t[1..] == u;
  }

  lemma FramedIsTaken(w: Literal, u: Bytes)
    requires w.Framed() && u == w.prefix + w.digits && u != [] && HexDigit(u[0]).Some? && HexDigit(u[|u| - 1]).Some?
    ensures var n := HexDigits(Unprefixed(u));
            && ParseInt16(w.Text()).Some? == n.Some?
            && (n.Some? ==> Abs(ParseInt16(w.Text()).value) == n.value)
            && (n.Some? ==> if Minus(w.sign) then ParseInt16(w.Text()).value <= 0 else ParseInt16(w.Text()).value >= 0)
  {
    BlanksAreWhite(w.before);
    BlanksAreWhite(w.after);
    SignIsTaken(w.before, w.sign, u, w.after);
  }

  lemma LiteralParses(w: Literal, n: nat)
    requires w.Framed() && Grouped(w.digits) && HexDigits(w.digits) == Some(n)
    ensures ParseInt16(w.Text()).Some? && Abs(ParseInt16(w.Text()).value) == n
    ensures if Minus(w.sign) then ParseInt16(w.Text()).value <= 0 else ParseInt16(w.Text()).value >= 0
  {
    Prefixed(w.prefix, w.digits);
    UnsignedEnds(w.prefix, w.digits);
    FramedIsTaken(w, w.prefix + w.digits);
  }

  lemma DenotedDigits(w: Literal, v: int)
    requires w.Denotes(v)
    ensures HexDigits(w.digits) == Some(Abs(v))
  {
    DigitsReadExactlyWhen(w.digits, Abs(v));
  }

  lemma LiteralIsRead(w: Literal, v: int)
    requires w.Denotes(v)
    ensures ParseInt16(w.Text()) == Some(v)
  {
    DenotedDigits(w, v);
    LiteralParses(w, Abs(v));
  }

  lemma PrefixOf(u: Bytes) returns (prefix: Bytes)
    ensures prefix + Unprefixed(u) == u && (prefix == [] || BasePrefix(prefix))
  {
    prefix := u[..|u| - |Unprefixed(u)|];
  }

  /** The sign of a text, and what is left behind it. */
  lemma SignOf(t: Bytes) returns (sign: Bytes, u: Bytes)
    ensures sign + u == t && Sign(sign) && (Minus(sign) <==> t != [] && t[0] == 45)
    ensures u == if t != [] && (t[0] == 43 || t[0] == 45) then t[1..] else t
  {
    if t != [] && (t[0] == 43 || t[0] == 45) {
      sign, u := [t[0]], t[1..];
    } else {
      sign, u := [], t;
    }
  }

  lemma Reassemble(s: Bytes, before: Bytes, sign: Bytes, prefix: Bytes, digits: Bytes, after: Bytes)
    requires s == before + LStrip(s) && LStrip(s) == Strip(s) + after
    requires sign + (prefix + digits) == Strip(s)
    ensures Literal(before, sign, prefix, digits, after).Text() == s
  {
    assert before + (Strip(s) + after) == before + Strip(s) + after;
  }

  lemma FrameOf(s: Bytes) returns (w: Literal)
    ensures w.Text() == s && w.Framed() && (Minus(w.sign) <==> Strip(s) != [] && Strip(s)[0] == 45)
    ensures var t := Strip(s);
            w.digits == Unprefixed(if t != [] && (t[0] == 43 || t[0] == 45) then t[1..] else t)
  {
    var before := LStripIs(s);
    var after := RStripIs(LStrip(s));
    var sign, u := SignOf(Strip(s));
    var prefix := PrefixOf(u);
    w := Literal(before, sign, prefix, Unprefixed(u), after);
    BlanksAreWhite(before);
    BlanksAreWhite(after);
    Reassemble(s, before, sign, prefix, Unprefixed(u), after);
  }

  lemma ReadIsLiteral(s: Bytes, v: int) returns (w: Literal)
    requires ParseInt16(s) == Some(v)
    ensures w.Text() == s && w.Denotes(v)
  {
    w := FrameOf(s);
    DigitsReadExactlyWhen(w.digits, Abs(v));
  }

  lemma DigitsAlone(s: Bytes)
    requires s != [] && forall b <- s :: HexDigit(b).Some?
    ensures Strip(s) == s && s[0] != 43 && s[0] != 45 && Unprefixed(s) == s
  {
    assert s[0] in s && s[|s| - 1] in s && (|s| > 1 ==> s[1] in s);
  }

  lemma SpelledIsRead(s: Bytes, n: nat)
    requires Spells(s, n)
    ensures ParseInt16(s) == Some(n)
  {
    SpelledIsPlain(s, n);
    DigitsReadExactlyWhen(s, n);
    DigitsAlone(s);
  }

  /** What int(text, 16) reads: it answers v exactly for the texts that are v written down, and fails for all others. */
  lemma IntReadsExactlyWhen(s: Bytes, v: int)
    ensures ParseInt16(s) == Some(v) <==> exists w: Literal :: w.Text() == s && w.Denotes(v)
  {
    if ParseInt16(s) == Some(v) {
      var w := ReadIsLiteral(s, v);
    } else if w: Literal :| w.Text() == s && w.Denotes(v) {
      LiteralIsRead(w, v);
    }
  }
}
