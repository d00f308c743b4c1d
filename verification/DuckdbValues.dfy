/** How the web UI prints tick counts, intervals and decimals, and why nothing is lost in print. */
module DuckdbValues {
  import opened Options
  import opened Decimals

  /** String(n) of an integer */
  function Signed(n: int): string {
    if n < 0 then "-" + Decimal(0 - n) else Decimal(n)
  }

  function Negated(text: string): Option<string> {
    After(text, "-")
  }

  /** An integer read off the front of a text, and what follows it. */
  datatype SignedRead = SignedRead(value: int, rest: string)

  function TakeSigned(s: string): Option<SignedRead> {
    var body := Negated(s);
    var d := TakeDigits(if body.Some? then body.value else s);
    if d.None? then None
    else Some(SignedRead(if body.Some? then 0 - Value(d.value.digits) else Value(d.value.digits), d.value.rest))
  }

  lemma NoMinus(s: string)
    requires s == "" || Digit(s[0])
    ensures Negated(s).None?
  {
  }

  lemma TakeNegativeOf(text: string, body: string, digits: string, rest: string, value: int)
    requires Negated(text) == Some(body) && TakeDigits(body) == Some(Read(digits, rest)) && value == 0 - Value(digits)
    ensures TakeSigned(text) == Some(SignedRead(value, rest))
  {
  }

  lemma TakeNegativeBack(n: nat, rest: string)
    requires rest == "" || !Digit(rest[0])
    ensures TakeSigned("-" + Decimal(n) + rest) == Some(SignedRead(0 - n, rest))
  {
    ValueOfDecimal(n);
    TakeDigitsBack(Decimal(n), rest);
    assert "-" + Decimal(n) + rest == "-" + (Decimal(n) + rest);
    AfterBack("-", Decimal(n) + rest);
    TakeNegativeOf("-" + Decimal(n) + rest, Decimal(n) + rest, Decimal(n), rest, 0 - n);
  }

  lemma TakePlainBack(n: nat, rest: string)
    requires rest == "" || !Digit(rest[0])
    ensures TakeSigned(Decimal(n) + rest) == Some(SignedRead(n, rest))
  {
    ValueOfDecimal(n);
    TakeDigitsBack(Decimal(n), rest);
    assert (Decimal(n) + rest)[0] == Decimal(n)[0];
    NoMinus(Decimal(n) + rest);
  }

  lemma TakeSignedBack(n: int, rest: string)
    requires rest == "" || !Digit(rest[0])
    ensures TakeSigned(Signed(n) + rest) == Some(SignedRead(n, rest))
  {
    if n < 0 { TakeNegativeBack(0 - n, rest); } else { TakePlainBack(n, rest); }
  }

  // ------------------------------------------------------------------ ticks

  function Pad(n: nat): string {
    PadStart(Decimal(n), 2)
  }

  /** String(perSecond).length - 1 */
  function Places(perSecond: nat): nat {
    |Decimal(perSecond)| - 1
  }

  /** replace(/0+$/, "") */
  function TrimZeros(s: string): (t: string)
    ensures |t| <= |s| && (t == "" || t[|t| - 1] != '0')
  {
    if s != "" && s[|s| - 1] == '0' then TrimZeros(s[..|s| - 1]) else s
  }

  function Fraction(remainder: nat, perSecond: nat): string {
    if remainder == 0 then "" else "." + TrimZeros(PadStart(Decimal(remainder), Places(perSecond)))
  }

  function MinutesText(m: nat, s: nat, tail: string): string {
    Pad(m) + (":" + (Pad(s) + tail))
  }

  function Fields(h: nat, m: nat, s: nat, tail: string): string {
    Pad(h) + (":" + MinutesText(m, s, tail))
  }

  /** HH:MM:SS, and what follows */
  function ClockText(seconds: nat, tail: string): string {
    Fields(seconds / 3600, seconds % 3600 / 60, seconds % 60, tail)
  }

  function AbsText(abs: nat, perSecond: nat): string
    requires perSecond > 0
  {
    ClockText(abs / perSecond, Fraction(abs % perSecond, perSecond))
  }

  function FormatTicks(ticks: int, perSecond: nat): string
    requires perSecond > 0
  {
    if ticks < 0 then "-" + AbsText(0 - ticks, perSecond) else AbsText(ticks, perSecond)
  }

  /** The units of TICKS_PER_SECOND. */
  predicate Unit(perSecond: nat) {
    perSecond == 1 || perSecond == 1_000 || perSecond == 1_000_000 || perSecond == 1_000_000_000
  }

  /** Digits read off the front of a text: how many, what they denote, and what follows. */
  datatype Count = Count(width: nat, value: nat, rest: string)

  function TakeCount(s: string): Option<Count> {
    var d := TakeDigits(s);
    if d.None? then None else Some(Count(|d.value.digits|, Value(d.value.digits), d.value.rest))
  }

  /** A field of a clock reading, two digits or more, and what follows the colon after it. */
  function TakeField(s: string): Option<Count> {
    var d := TakeCount(s);
    var rest := if d.Some? && d.value.width >= 2 then After(d.value.rest, ":") else None;
    if rest.None? then None else Some(d.value.(rest := rest.value))
  }

  datatype Clock = Clock(seconds: nat, rest: string)

  /** A field of exactly two digits below 60. */
  predicate Sexagesimal(c: Count) {
    c.width == 2 && c.value < 60
  }

  /** MM:SS, and what follows */
  function ReadMinutes(s: string): Option<Clock> {
    var m := TakeField(s);
    var sec := if m.Some? then TakeCount(m.value.rest) else None;
    if sec.Some? && Sexagesimal(m.value) && Sexagesimal(sec.value)
    then Some(Clock(60 * m.value.value + sec.value.value, sec.value.rest))
    else None
  }

  function ReadClock(s: string): Option<Clock> {
    var h := TakeField(s);
    var m := if h.Some? then ReadMinutes(h.value.rest) else None;
    if m.Some? then Some(Clock(3600 * h.value.value + m.value.seconds, m.value.rest)) else None
  }

  /** The ticks a fraction stands for: nothing, or a point and digits that do not end in 0. */
  function ReadFraction(s: string, perSecond: nat): Option<nat> {
    if s == "" then Some(0)
    else
      var f := After(s, ".");
      if f.None? || f.value == "" || !Digits(f.value)
         || |f.value| > Places(perSecond) || f.value[|f.value| - 1] == '0' then None
      else Some(Total(Value(f.value), Pow10(Places(perSecond) - |f.value|), 0))
  }

  function ReadAbs(body: string, perSecond: nat): Option<nat> {
    var c := ReadClock(body);
    var f := if c.Some? then ReadFraction(c.value.rest, perSecond) else None;
    if f.None? then None else Some(Total(c.value.seconds, perSecond, f.value))
  }

  function Total(seconds: nat, perSecond: nat, ticks: nat): nat {
    seconds * perSecond + ticks
  }

  /** A reader of `[-]HH:MM:SS[.fff]`: minutes and seconds have two digits and stay below 60. */
  function ReadTicks(text: string, perSecond: nat): Option<int> {
    var body := Negated(text);
    var abs := ReadAbs(if body.Some? then body.value else text, perSecond);
    if abs.None? then None else Some(Minus(body.Some?, abs.value))
  }

  function Minus(negative: bool, n: nat): int {
    if negative then 0 - n else n
  }

  lemma PadReads(n: nat)
    ensures Digits(Pad(n)) && Value(Pad(n)) == n && |Pad(n)| >= 2 && (n < 100 ==> |Pad(n)| == 2)
  {
    ValueOfDecimal(n);
    ValueOfPadded(Decimal(n), 2);
    assert Pow10(0) == 1 && Pow10(1) == 10 && Pow10(2) == 100;
    if n < 100 { DecimalWidth(n, 2); }
  }

  lemma CountReads(n: nat, rest: string)
    requires rest == "" || !Digit(rest[0])
    ensures TakeCount(Pad(n) + rest) == Some(Count(|Pad(n)|, n, rest))
  {
    PadReads(n);
    TakeDigitsBack(Pad(n), rest);
  }

  lemma FieldReads(n: nat, rest: string)
    ensures TakeField(Pad(n) + (":" + rest)) == Some(Count(|Pad(n)|, n, rest))
  {
    PadReads(n);
    CountReads(n, ":" + rest);
    AfterBack(":", rest);
  }

  lemma MinutesReadOf(text: string, m: Count, s: Count)
    requires TakeField(text) == Some(m) && TakeCount(m.rest) == Some(s) && Sexagesimal(m) && Sexagesimal(s)
    ensures ReadMinutes(text) == Some(Clock(60 * m.value + s.value, s.rest))
  {
  }

  lemma MinutesRead(m: nat, s: nat, tail: string)
    requires m < 60 && s < 60 && (tail == "" || !Digit(tail[0]))
    ensures ReadMinutes(MinutesText(m, s, tail)) == Some(Clock(60 * m + s, tail))
  {
    PadReads(m);
    PadReads(s);
    FieldReads(m, Pad(s) + tail);
    CountReads(s, tail);
    MinutesReadOf(MinutesText(m, s, tail), Count(2, m, Pad(s) + tail), Count(2, s, tail));
  }

  lemma HoursRead(h: nat, rest: string, minutes: nat, seconds: nat, tail: string)
    requires ReadMinutes(rest) == Some(Clock(minutes, tail)) && seconds == 3600 * h + minutes
    ensures ReadClock(Pad(h) + (":" + rest)) == Some(Clock(seconds, tail))
  {
    FieldReads(h, rest);
  }

  lemma FieldsReadOf(h: nat, m: nat, s: nat, tail: string, minutes: nat, seconds: nat)
    requires ReadMinutes(MinutesText(m, s, tail)) == Some(Clock(minutes, tail)) && seconds == 3600 * h + minutes
    ensures ReadClock(Fields(h, m, s, tail)) == Some(Clock(seconds, tail))
  {
    HoursRead(h, MinutesText(m, s, tail), minutes, seconds, tail);
  }

  lemma FieldsRead(seconds: nat, h: nat, m: nat, s: nat, tail: string)
    requires m < 60 && s < 60 && (tail == "" || !Digit(tail[0])) && seconds == 3600 * h + 60 * m + s
    ensures ReadClock(Fields(h, m, s, tail)) == Some(Clock(seconds, tail))
  {
    MinutesRead(m, s, tail);
    FieldsReadOf(h, m, s, tail, 60 * m + s, seconds);
  }

  lemma FieldsBegin(h: nat, m: nat, s: nat, tail: string)
    ensures Fields(h, m, s, tail) != "" && Digit(Fields(h, m, s, tail)[0])
  {
    PadReads(h);
    assert Fields(h, m, s, tail)[0] == Pad(h)[0];
  }

  lemma SplitSeconds(seconds: nat, tail: string) returns (h: nat, m: nat, s: nat)
    ensures seconds == 3600 * h + 60 * m + s && m < 60 && s < 60 && ClockText(seconds, tail) == Fields(h, m, s, tail)
  {
    h, m, s := seconds / 3600, seconds % 3600 / 60, seconds % 60;
  }

  lemma {:induction false} PlacesOfPower(k: nat)
    ensures |Decimal(Pow10(k))| == k + 1
  {
    if k > 0 { PlacesOfPower(k - 1); }
  }

  lemma UnitIsPower(perSecond: nat)
    requires Unit(perSecond)
    ensures Pow10(Places(perSecond)) == perSecond
  {
    assert Pow10(0) == 1;
    assert Pow10(1) == 10 && Pow10(2) == 100 && Pow10(3) == 1_000;
    assert Pow10(4) == 10_000 && Pow10(5) == 100_000 && Pow10(6) == 1_000_000;
    assert Pow10(7) == 10_000_000 && Pow10(8) == 100_000_000 && Pow10(9) == 1_000_000_000;
    PlacesOfPower(0);
    PlacesOfPower(3);
    PlacesOfPower(6);
    PlacesOfPower(9);
  }

  lemma {:induction false} TrimZerosKeeps(s: string)
    requires Digits(s)
    ensures Digits(TrimZeros(s)) && Value(s) == Value(TrimZeros(s)) * Pow10(|s| - |TrimZeros(s)|)
  {
    if s != "" && s[|s| - 1] == '0' {
      var r := s[..|s| - 1];
      TrimZerosKeeps(r);
      TenTimes(Value(TrimZeros(r)), Pow10(|r| - |TrimZeros(r)|), 0);
    } else {
      assert Pow10(0) == 1;
    }
  }

  lemma TrimmedFraction(remainder: nat, places: nat)
    requires 0 < remainder < Pow10(places)
    ensures var t := TrimZeros(PadStart(Decimal(remainder), places));
            t != "" && Digits(t) && |t| <= places && Value(t) * Pow10(places - |t|) == remainder
  {
    assert Pow10(0) == 1;
    var padded := PadStart(Decimal(remainder), places);
    ValueOfDecimal(remainder);
    DecimalWidth(remainder, places);
    ValueOfPadded(Decimal(remainder), places);
    TrimZerosKeeps(padded);
  }

  lemma PointedReads(t: string, perSecond: nat)
    requires t != "" && Digits(t) && |t| <= Places(perSecond) && t[|t| - 1] != '0'
    ensures ReadFraction("." + t, perSecond) == Some(Total(Value(t), Pow10(Places(perSecond) - |t|), 0))
  {
    var text := "." + t;
    assert text != "";
    AfterBack(".", t);
    assert After(text, ".").value == t;
  }

  lemma FractionReads(remainder: nat, perSecond: nat)
    requires Unit(perSecond) && remainder < perSecond
    ensures ReadFraction(Fraction(remainder, perSecond), perSecond) == Some(remainder)
    ensures Fraction(remainder, perSecond) == "" || !Digit(Fraction(remainder, perSecond)[0])
  {
    if remainder > 0 {
      UnitIsPower(perSecond);
      TrimmedFraction(remainder, Places(perSecond));
      PointedReads(TrimZeros(PadStart(Decimal(remainder), Places(perSecond))), perSecond);
    }
  }

  lemma TotalBack(abs: nat, perSecond: nat)
    requires perSecond > 0
    ensures Total(abs / perSecond, perSecond, abs % perSecond) == abs
  {
  }

  lemma FieldsAndFraction(seconds: nat, h: nat, m: nat, s: nat, remainder: nat, perSecond: nat)
    requires m < 60 && s < 60 && seconds == 3600 * h + 60 * m + s && Unit(perSecond) && remainder < perSecond
    ensures var body := Fields(h, m, s, Fraction(remainder, perSecond));
            ReadAbs(body, perSecond) == Some(Total(seconds, perSecond, remainder)) && body != "" && Digit(body[0])
  {
    var fraction := Fraction(remainder, perSecond);
    FractionReads(remainder, perSecond);
    FieldsRead(seconds, h, m, s, fraction);
    FieldsBegin(h, m, s, fraction);
  }

  lemma AbsReads(abs: nat, perSecond: nat)
    requires Unit(perSecond)
    ensures ReadAbs(AbsText(abs, perSecond), perSecond) == Some(abs)
    ensures AbsText(abs, perSecond) != "" && Digit(AbsText(abs, perSecond)[0])
  {
    var h, m, s := SplitSeconds(abs / perSecond, Fraction(abs % perSecond, perSecond));
    FieldsAndFraction(abs / perSecond, h, m, s, abs % perSecond, perSecond);
    TotalBack(abs, perSecond);
  }

  /** What is printed of a tick count reads back as that count, to the last tick. */
  lemma TicksReadBack(ticks: int, perSecond: nat)
    requires Unit(perSecond)
    ensures ReadTicks(FormatTicks(ticks, perSecond), perSecond) == Some(ticks)
  {
    var body := AbsText(if ticks < 0 then 0 - ticks else ticks, perSecond);
    AbsReads(if ticks < 0 then 0 - ticks else ticks, perSecond);
    if ticks < 0 {
      AfterBack("-", body);
    } else {
      NoMinus(body);
    }
  }

  // -------------------------------------------------------------- intervals

  /** YEAR_MONTH as an ISO 8601 duration; DAY_TIME as a tick count of milliseconds. */
  function FormatInterval(first: int, second: int, yearMonth: bool): string {
    if yearMonth then
      if first == 0 && second == 0 then "P0M"
      else "P" + (YearsText(first) + MonthsText(second))
    else FormatTicks(first * 86_400_000 + second, 1_000)
  }

  function YearsText(n: int): string {
    if n == 0 then "" else Signed(n) + "Y"
  }

  function MonthsText(n: int): string {
    if n == 0 then "" else Signed(n) + "M"
  }

  datatype Period = Period(years: int, months: int)

  /** A reader of `nM`, and of nothing as no months. */
  function ReadMonths(s: string): Option<int> {
    var n := TakeSigned(s);
    if s == "" then Some(0) else if n.Some? && n.value.rest == "M" then Some(n.value.value) else None
  }

  /** A reader of `P[nY][nM]`. */
  function ReadPeriod(text: string): Option<Period> {
    var body := After(text, "P");
    var n := if body.Some? then TakeSigned(body.value) else None;
    var more := if n.Some? then After(n.value.rest, "Y") else None;
    var months := if body.None? then None else if more.Some? then ReadMonths(more.value) else ReadMonths(body.value);
    if months.None? then None else Some(Period(if more.Some? then n.value.value else 0, months.value))
  }

  lemma MonthsRead(n: int)
    ensures ReadMonths(MonthsText(n)) == Some(n)
    ensures MonthsText(n) == "" || !Digit(("Y" + MonthsText(n))[0])
    ensures n != 0 ==> TakeSigned(MonthsText(n)) == Some(SignedRead(n, "M"))
  {
    TakeSignedBack(n, "M");
  }

  lemma YearsRead(years: int, months: string)
    requires years != 0
    ensures TakeSigned(YearsText(years) + months) == Some(SignedRead(years, "Y" + months))
    ensures After("Y" + months, "Y") == Some(months)
  {
    TakeSignedBack(years, "Y" + months);
    AfterBack("Y", months);
    Shift(Signed(years), "Y", months);
  }

  lemma Shift(a: string, b: string, c: string)
    ensures (a + b) + c == a + (b + c)
  {
  }

  lemma NoYears()
    ensures ReadPeriod("P0M") == Some(Period(0, 0)) && After("M", "Y").None?
  {
    TakeSignedBack(0, "M");
    assert Signed(0) + "M" == "0M";
    assert "P0M" == "P" + "0M";
    AfterBack("P", "0M");
  }

  lemma YearsFirst(years: int, months: int)
    requires years != 0
    ensures ReadPeriod("P" + (YearsText(years) + MonthsText(months))) == Some(Period(years, months))
  {
    MonthsRead(months);
    YearsRead(years, MonthsText(months));
    AfterBack("P", YearsText(years) + MonthsText(months));
  }

  lemma MonthsOnly(months: int)
    requires months != 0
    ensures ReadPeriod("P" + MonthsText(months)) == Some(Period(0, months))
  {
    NoYears();
    MonthsRead(months);
    AfterBack("P", MonthsText(months));
  }

  /** A half that is nothing is not written, and an interval of nothing is no months. */
  lemma EmptyHalvesAreLeftOut(n: int)
    ensures FormatInterval(0, 0, true) == "P0M"
    ensures n != 0 ==> FormatInterval(n, 0, true) == "P" + Signed(n) + "Y"
    ensures n != 0 ==> FormatInterval(0, n, true) == "P" + Signed(n) + "M"
  {
    assert "P" + ((Signed(n) + "Y") + "") == "P" + Signed(n) + "Y";
    assert "P" + ("" + (Signed(n) + "M")) == "P" + Signed(n) + "M";
  }

  /** Neither half of an interval is lost: years and months come back, or days and milliseconds as their sum. */
  lemma IntervalReadsBack(first: int, second: int)
    ensures ReadPeriod(FormatInterval(first, second, true)) == Some(Period(first, second))
    ensures ReadTicks(FormatInterval(first, second, false), 1_000) == Some(first * 86_400_000 + second)
  {
    TicksReadBack(first * 86_400_000 + second, 1_000);
    if first != 0 {
      YearsFirst(first, second);
    } else if second != 0 {
      assert YearsText(0) + MonthsText(second) == MonthsText(second);
      MonthsOnly(second);
    } else {
      NoYears();
    }
  }

  // ---------------------------------------------------------------- decimals

  const MAX_SAFE_INTEGER: nat := 9_007_199_254_740_991

  /** A cell's text: still a text, or about to be made a number. */
  datatype Shown = AsNumber(text: string) | AsText(text: string)

  /** -?\d+ */
  predicate IsInteger(s: string) {
    var d := Magnitude(s); d != "" && Digits(d)
  }

  function Magnitude(unscaled: string): string {
    var body := Negated(unscaled); if body.Some? then body.value else unscaled
  }

  function IntegerValue(s: string): int {
    if Negated(s).Some? then 0 - Value(Magnitude(s)) else Value(Magnitude(s))
  }

  /** The digits of an unscaled decimal, with the point put in `scale` digits from the right. */
  function ScaledText(digits: string, scale: int): string {
    if scale <= 0 then digits + Zeros(0 - scale)
    else
      var padded := PadStart(digits, scale + 1);
      padded[..|padded| - scale] + ("." + padded[|padded| - scale..])
  }

  function ApplyDecimalScale(unscaled: string, scale: int): Shown
    requires IsInteger(unscaled)
  {
    var digits := Magnitude(unscaled);
    var scaled := ScaledText(digits, scale);
    var text := if Negated(unscaled).Some? then "-" + scaled else scaled;
    if Value(digits) <= MAX_SAFE_INTEGER then AsNumber(text) else AsText(text)
  }

  /** What a fixed-point numeral denotes: mantissa / 10^places. */
  datatype Fixed = Fixed(mantissa: int, places: nat)

  function ReadUnsigned(text: string): (f: Option<Fixed>)
    ensures f.Some? ==> f.value.mantissa >= 0
  {
    var a := TakeDigits(text);
    if a.None? then None
    else if a.value.rest == "" then Some(Fixed(Value(a.value.digits), 0))
    else
      var f := After(a.value.rest, ".");
      var b := if f.Some? then TakeDigits(f.value) else None;
      if b.None? || b.value.rest != "" then None
      else Some(Fixed(Value(a.value.digits + b.value.digits), |b.value.digits|))
  }

  /** A reader of `-?\d+(\.\d+)?`. */
  function ReadFixed(text: string): Option<Fixed> {
    var body := Negated(text);
    var f := ReadUnsigned(if body.Some? then body.value else text);
    if f.None? then None else Some(Fixed(Minus(body.Some?, f.value.mantissa), f.value.places))
  }

  lemma PlainReads(text: string)
    requires text != "" && Digits(text)
    ensures ReadUnsigned(text) == Some(Fixed(Value(text), 0))
  {
    assert text + "" == text;
    TakeDigitsBack(text, "");
  }

  lemma ZerosScale(digits: string, zeros: nat)
    ensures Value(digits + Zeros(zeros)) == Value(digits) * Pow10(zeros)
  {
    ValueConcat(digits, Zeros(zeros));
    ValueOfZeros(zeros);
  }

  lemma WholeReads(digits: string, zeros: nat)
    requires digits != "" && Digits(digits)
    ensures ReadUnsigned(digits + Zeros(zeros)) == Some(Fixed(Value(digits) * Pow10(zeros), 0))
  {
    ValueOfZeros(zeros);
    PlainReads(digits + Zeros(zeros));
    ZerosScale(digits, zeros);
  }

  lemma PointReads(a: string, b: string, places: nat)
    requires a != "" && b != "" && Digits(a) && Digits(b) && |b| == places
    ensures ReadUnsigned(a + ("." + b)) == Some(Fixed(Value(a + b), places))
  {
    TakeDigitsBack(a, "." + b);
    AfterBack(".", b);
    assert b + "" == b;
    TakeDigitsBack(b, "");
  }

  lemma DigitsCut(s: string, cut: nat)
    requires Digits(s) && cut <= |s|
    ensures Digits(s[..cut]) && Digits(s[cut..]) && |s[..cut]| == cut && |s[cut..]| == |s| - cut
  {
  }

  lemma CutReads(padded: string, cut: nat, places: nat)
    requires Digits(padded) && 0 < cut < |padded| && places == |padded| - cut
    ensures ReadUnsigned(padded[..cut] + ("." + padded[cut..]))
            == Some(Fixed(Value(padded[..cut] + padded[cut..]), places))
  {
    DigitsCut(padded, cut);
    PointReads(padded[..cut], padded[cut..], places);
  }

  lemma CutValue(padded: string, cut: nat)
    requires cut <= |padded|
    ensures Value(padded[..cut] + padded[cut..]) == Value(padded)
  {
    assert padded[..cut] + padded[cut..] == padded;
  }

  lemma PaddedReads(digits: string, scale: nat)
    requires digits != "" && Digits(digits) && scale > 0
    ensures ReadUnsigned(ScaledText(digits, scale)) == Some(Fixed(Value(digits), scale))
  {
    var padded := PadStart(digits, scale + 1);
    assert ScaledText(digits, scale) == padded[..|padded| - scale] + ("." + padded[|padded| - scale..]);
    ValueOfPadded(digits, scale + 1);
    CutReads(padded, |padded| - scale, scale);
    CutValue(padded, |padded| - scale);
  }

  lemma ScaledBegins(digits: string, scale: int)
    requires digits != "" && Digits(digits)
    ensures ScaledText(digits, scale) != "" && Digit(ScaledText(digits, scale)[0])
  {
    if scale > 0 {
      ValueOfPadded(digits, scale + 1);
      assert ScaledText(digits, scale)[0] == PadStart(digits, scale + 1)[0];
    }
  }

  lemma ScaledReads(digits: string, scale: int)
    requires digits != "" && Digits(digits)
    ensures ReadUnsigned(ScaledText(digits, scale))
            == Some(if scale <= 0 then Fixed(Value(digits) * Pow10(0 - scale), 0) else Fixed(Value(digits), scale))
    ensures ScaledText(digits, scale) != "" && Digit(ScaledText(digits, scale)[0])
  {
    ScaledBegins(digits, scale);
    if scale <= 0 { WholeReads(digits, 0 - scale); } else { PaddedReads(digits, scale); }
  }

  /** The text of a decimal denotes its unscaled integer times 10^-scale exactly, and shows all of its places. */
  lemma DecimalIsExact(unscaled: string, scale: int)
    requires IsInteger(unscaled)
    ensures var n := IntegerValue(unscaled);
            ReadFixed(ApplyDecimalScale(unscaled, scale).text)
            == Some(if scale <= 0 then Fixed(n * Pow10(0 - scale), 0) else Fixed(n, scale))
  {
    var digits := Magnitude(unscaled);
    var scaled := ScaledText(digits, scale);
    ScaledReads(digits, scale);
    if Negated(unscaled).Some? {
      AfterBack("-", scaled);
      if scale <= 0 { NegativeTimes(Value(digits), Pow10(0 - scale)); }
    } else {
      NoMinus(scaled);
    }
  }

  lemma NegativeTimes(v: nat, p: nat)
    ensures 0 - v * p == (0 - v) * p
  {
  }

  /** The exponent of a decimal's type: its scale, with a sign when it is positive. */
  function ExponentText(scale: int): string {
    if scale > 0 then "+" + (Signed(scale) + "]") else Signed(scale) + "]"
  }

  /** `Decimal[<precision>e<scale>]` */
  function HintText(precision: nat, scale: int): string {
    "Decimal[" + (Decimal(precision) + ("e" + ExponentText(scale)))
  }

  /** [+-]?\d+ and the closing bracket */
  function ReadExponent(s: string): Option<int> {
    var plus := After(s, "+");
    var n := if plus.None? then TakeSigned(s) else if Negated(plus.value).Some? then None else TakeSigned(plus.value);
    if n.Some? && n.value.rest == "]" then Some(n.value.value) else None
  }

  function DecimalScale(hint: string): Option<int> {
    var a := After(hint, "Decimal[");
    var p := if a.Some? then TakeDigits(a.value) else None;
    var e := if p.Some? then After(p.value.rest, "e") else None;
    if e.None? then None else ReadExponent(e.value)
  }

  lemma ExponentReads(scale: int)
    ensures ReadExponent(ExponentText(scale)) == Some(scale)
  {
    var tail := Signed(scale) + "]";
    TakeSignedBack(scale, "]");
    ValueOfDecimal(if scale < 0 then 0 - scale else scale);
    assert tail[0] == Signed(scale)[0];
    if scale > 0 {
      AfterBack("+", tail);
      NoMinus(tail);
    }
  }

  lemma ScaleReadsBack(precision: nat, scale: int)
    ensures DecimalScale(HintText(precision, scale)) == Some(scale)
  {
    var exponent := "e" + ExponentText(scale);
    AfterBack("Decimal[", Decimal(precision) + exponent);
    ValueOfDecimal(precision);
    TakeDigitsBack(Decimal(precision), exponent);
    AfterBack("e", ExponentText(scale));
    ExponentReads(scale);
  }

  /** One DECIMAL cell: an integer the column holds, and the column's type. None where the scale is not known. */
  function ToDecimalValue(value: int, hint: string): Option<Shown> {
    var scale := DecimalScale(hint);
    SignedIsInteger(value);
    if scale.None? then None else Some(ApplyDecimalScale(Signed(value), scale.value))
  }

  lemma SignedIsInteger(n: int)
    ensures IsInteger(Signed(n)) && IntegerValue(Signed(n)) == n
  {
    var digits := Decimal(if n < 0 then 0 - n else n);
    ValueOfDecimal(if n < 0 then 0 - n else n);
    if n < 0 { AfterBack("-", digits); } else { NoMinus(digits); }
  }

  /** A cell of a DECIMAL column is shown as the value it has, whatever the precision and the scale of the column. */
  lemma DecimalCellIsExact(value: int, precision: nat, scale: int)
    ensures var cell := ToDecimalValue(value, HintText(precision, scale));
            && cell.Some?
            && ReadFixed(cell.value.text)
               == Some(if scale <= 0 then Fixed(value * Pow10(0 - scale), 0) else Fixed(value, scale))
            && (cell.value.AsText? <==> value < 0 - MAX_SAFE_INTEGER || value > MAX_SAFE_INTEGER)
  {
    ScaleReadsBack(precision, scale);
    SignedIsInteger(value);
    DecimalIsExact(Signed(value), scale);
  }
}
