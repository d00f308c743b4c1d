/**
  What becomes of the cells of one DECIMAL column that are shown as numbers. The guard keeps
  the unscaled integer safe, but the number is the scaled one, rounded to 53 bits. Here is
  exactly which columns still tell every two of their cells apart.
*/
module DecimalColumns {
  import opened Decimals
  import opened DuckdbValues

  const TWO52: nat := 4_503_599_627_370_496
  const TWO53: nat := 9_007_199_254_740_992

  function Pow2(k: nat): (p: nat)
    ensures p >= 1
  {
    if k == 0 then 1 else 2 * Pow2(k - 1)
  }

  /** The integer nearest to m / d, the even one of two. */
  function Round(m: nat, d: nat): nat
    requires d > 0
  {
    var q, r := m / d, m % d;
    if 2 * r < d || (2 * r == d && q % 2 == 0) then q else q + 1
  }

  /** How often v / d has to be doubled to have 53 bits before the point. */
  function Places(v: nat, d: nat): nat
    requires v > 0 && d > 0
    decreases TWO52 * d - v
  {
    if v >= TWO52 * d then 0 else 1 + Places(2 * v, d)
  }

  /** A floating-point number, k / 2^places. */
  datatype Number = Number(k: int, places: nat)

  /** The floating-point number nearest to value / 10^scale. */
  function NumberOf(value: int, scale: nat): Number {
    if value == 0 then Number(0, 0)
    else
      var v := if value < 0 then 0 - value else value;
      var n := Places(v, Pow10(scale));
      var k := Round(v * Pow2(n), Pow10(scale));
      Number(if value < 0 then 0 - k else k, n)
  }

  predicate Same(a: Number, b: Number) {
    a.k * Pow2(b.places) == b.k * Pow2(a.places)
  }

  /** A cell of a DECIMAL(precision, scale) column that is shown as a number. */
  predicate NumberCell(value: int, precision: nat) {
    && 0 - Pow10(precision) < value < Pow10(precision)
    && 0 - MAX_SAFE_INTEGER <= value <= MAX_SAFE_INTEGER
  }

  ghost predicate TellsApart(precision: nat, scale: nat) {
    forall a: int, b: int :: NumberCell(a, precision) && NumberCell(b, precision) && a != b ==>
      !Same(NumberOf(a, scale), NumberOf(b, scale))
  }

  // --------------------------------------------------------------- arithmetic

  lemma TimesLess(a: int, b: int, c: int)
    requires a < b && c > 0
    ensures a * c < b * c
  {
  }

  lemma TimesAtMost(a: int, b: int, c: int)
    requires a <= b && c >= 0
    ensures a * c <= b * c
  {
  }

  lemma CancelLess(a: int, b: int, c: int)
    requires a * c < b * c && c > 0
    ensures a < b
  {
    if a >= b { TimesAtMost(b, a, c); }
  }

  /** Rounding moves by half a unit at most. */
  lemma RoundIsNear(m: nat, d: nat)
    requires d > 0
    ensures 2 * (Round(m, d) * d) <= 2 * m + d && 2 * m <= 2 * (Round(m, d) * d) + d
  {
    var q, r := m / d, m % d;
    assert m == q * d + r;
    assert (q + 1) * d == q * d + d;
  }

  lemma RoundGrows(m: nat, m': nat, d: nat)
    requires d > 0 && m <= m'
    ensures Round(m, d) <= Round(m', d)
  {
    RoundIsNear(m, d);
    RoundIsNear(m', d);
    if m < m' {
      assert (Round(m', d) + 1) * d == Round(m', d) * d + d;
      CancelLess(Round(m, d), Round(m', d) + 1, d);
    }
  }

  /** More than a unit apart, they round apart. */
  lemma RoundsApart(m: nat, m': nat, d: nat)
    requires d > 0 && m + d < m'
    ensures Round(m, d) < Round(m', d)
  {
    RoundIsNear(m, d);
    RoundIsNear(m', d);
    CancelLess(Round(m, d), Round(m', d), d);
  }

  // ------------------------------------------------------------- 53 bits

  /** v / d, doubled n times, has 53 bits before the point. */
  predicate Fits(v: nat, d: nat, n: nat) {
    TWO52 * d <= v * Pow2(n) < TWO53 * d
  }

  lemma {:induction false} PlacesFit(v: nat, d: nat)
    requires 0 < v < TWO53 * d && d > 0
    ensures Fits(v, d, Places(v, d))
    decreases TWO52 * d - v
  {
    if v >= TWO52 * d {
      assert Pow2(0) == 1 && v * 1 == v;
    } else {
      PlacesFit(2 * v, d);
      var n := Places(2 * v, d);
      Doubled(v, Pow2(n));
    }
  }

  lemma Doubled(v: int, p: int)
    ensures 2 * v * p == v * (2 * p)
  {
  }

  lemma {:induction false} Pow2Adds(a: nat, b: nat)
    ensures Pow2(a + b) == Pow2(a) * Pow2(b)
  {
    if a > 0 {
      Pow2Adds(a - 1, b);
      assert 2 * (Pow2(a - 1) * Pow2(b)) == 2 * Pow2(a - 1) * Pow2(b);
    }
  }

  /** A smaller number needs no fewer places. */
  lemma PlacesFall(a: nat, b: nat, d: nat, m: nat, n: nat)
    requires 0 < a <= b && d > 0 && Fits(a, d, m) && Fits(b, d, n)
    ensures n <= m
  {
    if m < n {
      Pow2Adds(n - m - 1, m + 1);
      assert Pow2(m + 1) == 2 * Pow2(m);
      TimesAtMost(1, Pow2(n - m - 1), Pow2(m + 1));
      TimesAtMost(a, b, Pow2(m));
      TimesAtMost(2 * Pow2(m), Pow2(n), b);
      assert b * Pow2(n) >= 2 * (b * Pow2(m)) >= 2 * (a * Pow2(m));
    }
  }

  lemma PlacesAre(v: nat, d: nat, n: nat)
    requires 0 < v < TWO53 * d && d > 0 && Fits(v, d, n)
    ensures Places(v, d) == n
  {
    PlacesFit(v, d);
    PlacesFall(v, v, d, n, Places(v, d));
    PlacesFall(v, v, d, Places(v, d), n);
  }

  lemma RoundHas53(v: nat, d: nat, n: nat)
    requires d > 0 && Fits(v, d, n)
    ensures TWO52 <= Round(v * Pow2(n), d) <= TWO53
  {
    var m := v * Pow2(n);
    RoundIsNear(m, d);
    CancelLess(TWO52 - 1, Round(m, d), d);
    CancelLess(Round(m, d), TWO53 + 1, d);
  }

  /** Exactly half way, the even integer is taken. */
  lemma TiesGoToEven(m: nat, d: nat)
    requires d > 0
    ensures 2 * m == 2 * (Round(m, d) * d) + d || 2 * (Round(m, d) * d) == 2 * m + d ==> Round(m, d) % 2 == 0
  {
    var q, r := m / d, m % d;
    assert m == q * d + r;
    assert (q + 1) * d == q * d + d;
  }

  /**
    The number a cell is shown as: 53 bits, on the cell's side of zero, less than half a unit of the
    last bit away from value / 10^scale, or exactly half and even.
  */
  lemma NumberIsNearest(value: int, scale: nat)
    requires value != 0 && (if value < 0 then 0 - value else value) < TWO53
    ensures var d, x, v := Pow10(scale), NumberOf(value, scale), if value < 0 then 0 - value else value;
            var k, m := if x.k < 0 then 0 - x.k else x.k, v * Pow2(x.places);
            && (x.k < 0 <==> value < 0) && TWO52 <= k <= TWO53
            && (2 * m < 2 * (k * d) + d || (2 * m == 2 * (k * d) + d && k % 2 == 0))
            && (2 * (k * d) < 2 * m + d || (2 * (k * d) == 2 * m + d && k % 2 == 0))
  {
    var d, v := Pow10(scale), if value < 0 then 0 - value else value;
    TimesAtMost(1, d, TWO53);
    PlacesFit(v, d);
    var n := Places(v, d);
    RoundHas53(v, d, n);
    RoundIsNear(v * Pow2(n), d);
    TiesGoToEven(v * Pow2(n), d);
  }

  /** A cell that fits its column is shown as a number exactly when its unscaled integer is safe. */
  lemma NumberCellExactlyWhen(value: int, precision: nat, scale: int)
    ensures NumberCell(value, precision) <==>
            && 0 - Pow10(precision) < value < Pow10(precision)
            && ToDecimalValue(value, HintText(precision, scale)).Some?
            && ToDecimalValue(value, HintText(precision, scale)).value.AsNumber?
  {
    DecimalCellIsExact(value, precision, scale);
  }

  // -------------------------------------------------- columns that tell cells apart

  /** In the same binade, cells below 2^52 are more than a unit apart. */
  lemma SameBinadeApart(a: nat, b: nat, d: nat, n: nat)
    requires 0 < a < b < TWO52 && d > 0 && Fits(a, d, n) && Fits(b, d, n)
    ensures Round(a * Pow2(n), d) < Round(b * Pow2(n), d)
  {
    UnitIsSmall(b, d, n);
    NextCell(a, b, Pow2(n));
    RoundsApart(a * Pow2(n), b * Pow2(n), d);
  }

  lemma UnitIsSmall(b: nat, d: nat, n: nat)
    requires b < TWO52 && d > 0 && Fits(b, d, n)
    ensures d < Pow2(n)
  {
    if Pow2(n) <= d {
      TimesAtMost(Pow2(n), d, b);
      TimesAtMost(b, TWO52 - 1, d);
    }
  }

  lemma UpperAt(a: nat, d: nat, n: nat)
    requires d > 0 && Fits(a, d, n + 1)
    ensures var k := Round(a * Pow2(n + 1), d); k <= TWO53 && 2 * (k * d) <= 4 * (a * Pow2(n)) + d
  {
    RoundHas53(a, d, n + 1);
    RoundIsNear(a * Pow2(n + 1), d);
    Doubled(a, Pow2(n));
  }

  lemma LowerAt(b: nat, d: nat, n: nat)
    requires d > 0 && Fits(b, d, n)
    ensures var j := Round(b * Pow2(n), d); TWO52 <= j && 2 * (b * Pow2(n)) <= 2 * (j * d) + d
  {
    RoundHas53(b, d, n);
    RoundIsNear(b * Pow2(n), d);
  }

  /** In neighbouring binades they do not meet at the power of two between them. */
  lemma NextBinadeApart(a: nat, b: nat, d: nat, n: nat)
    requires 0 < a < b < TWO52 && d > 0 && Fits(a, d, n + 1) && Fits(b, d, n)
    ensures Round(a * Pow2(n + 1), d) < 2 * Round(b * Pow2(n), d)
  {
    UpperAt(a, d, n);
    LowerAt(b, d, n);
    UnitIsSmall(b, d, n);
    NextCell(a, b, Pow2(n));
    PowersMeet(a * Pow2(n), b * Pow2(n), Pow2(n), d, Round(a * Pow2(n + 1), d), Round(b * Pow2(n), d));
  }

  lemma NextCell(a: nat, b: nat, unit: nat)
    requires a < b
    ensures a * unit + unit <= b * unit
  {
    TimesAtMost(a + 1, b, unit);
  }

  lemma PowersMeet(a: nat, b: nat, unit: nat, d: nat, k: nat, j: nat)
    requires a + unit <= b && 0 < d < unit && k <= TWO53 && TWO52 <= j
    requires 2 * (k * d) <= 4 * a + d && 2 * b <= 2 * (j * d) + d
    ensures k < 2 * j
  {
    if j == TWO52 { CancelLess(k, TWO53, d); }
  }

  lemma Apart(a: nat, b: nat, scale: nat)
    requires 0 < a < b < TWO52
    ensures var x, y := NumberOf(a, scale), NumberOf(b, scale);
            0 < x.k && x.k * Pow2(y.places) < y.k * Pow2(x.places)
  {
    var d := Pow10(scale);
    var m, n := Places(a, d), Places(b, d);
    TimesAtMost(1, d, TWO53);
    PlacesFit(a, d);
    PlacesFit(b, d);
    PlacesFall(a, b, d, m, n);
    RoundHas53(a, d, m);
    RoundHas53(b, d, n);
    ApartAt(a, b, d, m, n);
  }

  lemma ApartAt(a: nat, b: nat, d: nat, m: nat, n: nat)
    requires 0 < a < b < TWO52 && d > 0 && Fits(a, d, m) && Fits(b, d, n) && n <= m
    ensures Round(a * Pow2(m), d) * Pow2(n) < Round(b * Pow2(n), d) * Pow2(m)
  {
    var k, j := Round(a * Pow2(m), d), Round(b * Pow2(n), d);
    Pow2Adds(m - n, n);
    RoundHas53(a, d, m);
    RoundHas53(b, d, n);
    if m == n {
      SameBinadeApart(a, b, d, n);
    } else if m == n + 1 {
      NextBinadeApart(a, b, d, n);
      assert Pow2(1) == 2 * Pow2(0) == 2;
    } else {
      Pow2Adds(m - n - 2, 2);
      assert Pow2(2) == 2 * Pow2(1) == 4 * Pow2(0) == 4;
      TimesAtMost(4, Pow2(m - n), j);
    }
    assert k < j * Pow2(m - n);
    TimesLess(k, j * Pow2(m - n), Pow2(n));
    Grouped(j, Pow2(m - n), Pow2(n));
  }

  lemma Grouped(a: int, b: int, c: int)
    ensures a * b * c == a * (b * c)
  {
  }

  /** Cells below 2^52 show different numbers, whatever their signs. */
  lemma SmallCellsApart(a: int, b: int, scale: nat)
    requires a != b && 0 - TWO52 < a < TWO52 && 0 - TWO52 < b < TWO52
    ensures !Same(NumberOf(a, scale), NumberOf(b, scale))
  {
    var x, y := if a < 0 then 0 - a else a, if b < 0 then 0 - b else b;
    Positive(x, scale);
    Positive(y, scale);
    Signs(NumberOf(a, scale).k, Pow2(NumberOf(b, scale).places));
    Signs(NumberOf(b, scale).k, Pow2(NumberOf(a, scale).places));
    if 0 < x < y { Apart(x, y, scale); }
    if 0 < y < x { Apart(y, x, scale); }
    Negated(NumberOf(x, scale).k, Pow2(NumberOf(b, scale).places));
    Negated(NumberOf(y, scale).k, Pow2(NumberOf(a, scale).places));
  }

  lemma Positive(v: nat, scale: nat)
    requires v < TWO53
    ensures NumberOf(v, scale).k >= 0 && (NumberOf(v, scale).k == 0 <==> v == 0)
    ensures v > 0 ==> NumberOf(0 - v, scale) == Number(0 - NumberOf(v, scale).k, NumberOf(v, scale).places)
  {
    if v > 0 {
      var d := Pow10(scale);
      TimesAtMost(1, d, TWO53);
      PlacesFit(v, d);
      RoundHas53(v, d, Places(v, d));
    }
  }

  lemma Signs(k: int, p: int)
    requires p > 0
    ensures (k > 0 <==> k * p > 0) && (k < 0 <==> k * p < 0)
  {
    if k > 0 { TimesAtMost(1, k, p); }
    if k < 0 { TimesAtMost(k, 0 - 1, p); }
  }

  lemma Negated(k: int, p: int)
    ensures (0 - k) * p == 0 - k * p
  {
  }

  /** Whole numbers are shown as they are. */
  lemma WholeCellsApart(a: int, b: int)
    requires a != b && 0 - TWO53 < a < TWO53 && 0 - TWO53 < b < TWO53
    ensures !Same(NumberOf(a, 0), NumberOf(b, 0))
  {
    WholeIsExact(a);
    WholeIsExact(b);
    var x, y := NumberOf(a, 0), NumberOf(b, 0);
    Grouped(a, Pow2(x.places), Pow2(y.places));
    Grouped(b, Pow2(y.places), Pow2(x.places));
    var p := Pow2(x.places) * Pow2(y.places);
    Signs(Pow2(x.places), Pow2(y.places));
    if a < b { TimesLess(a, b, p); } else { TimesLess(b, a, p); }
  }

  lemma WholeIsExact(a: int)
    ensures NumberOf(a, 0).k == a * Pow2(NumberOf(a, 0).places)
  {
    assert Pow10(0) == 1 && forall m: nat :: Round(m, 1) == m;
    if a < 0 { Negated(0 - a, Pow2(Places(0 - a, 1))); }
  }

  // ------------------------------------------------- columns that do not

  /** The neighbours v and v + 1 round to the same integer. */
  predicate Meet(v: nat, unit: nat, d: nat)
    requires d > 0
  {
    Round(v * unit, d) == Round((v + 1) * unit, d)
  }

  /** If no neighbours from lo to hi meet, they climb by as many integers as there are neighbours. */
  lemma {:induction false} Climbs(lo: nat, hi: nat, unit: nat, d: nat)
    requires d > 0 && lo <= hi && forall v :: lo <= v < hi ==> !Meet(v, unit, d)
    ensures Round(hi * unit, d) - Round(lo * unit, d) >= hi - lo
    decreases hi - lo
  {
    if lo < hi {
      Climbs(lo, hi - 1, unit, d);
      TimesAtMost(hi - 1, hi, unit);
      RoundGrows((hi - 1) * unit, hi * unit, d);
      assert !Meet(hi - 1, unit, d);
    }
  }

  lemma Spread(hi: int, lo: int, unit: int, d: int)
    ensures hi * unit - lo * unit == (hi - lo) * unit && (hi - lo) * d - (hi - lo) * unit == (hi - lo) * (d - unit)
  {
  }

  /** There are more cells than integers between lo and hi. */
  lemma CrowdedCellsMeet(lo: nat, hi: nat, unit: nat, d: nat)
    requires lo <= hi && unit < d && (hi - lo) * (d - unit) > d
    ensures exists v :: lo <= v < hi && Meet(v, unit, d)
  {
    RisesLess(lo, hi, unit, d);
    if forall v :: lo <= v < hi ==> !Meet(v, unit, d) {
      Climbs(lo, hi, unit, d);
    }
  }

  lemma RisesLess(lo: nat, hi: nat, unit: nat, d: nat)
    requires lo <= hi && unit < d && (hi - lo) * (d - unit) > d
    ensures Round(hi * unit, d) - Round(lo * unit, d) < hi - lo
  {
    RoundIsNear(lo * unit, d);
    RoundIsNear(hi * unit, d);
    Spread(hi, lo, unit, d);
    LessSteep(Round(hi * unit, d), Round(lo * unit, d), hi - lo, hi * unit - lo * unit, d);
  }

  lemma LessSteep(k: int, j: int, n: int, rise: int, d: nat)
    requires d > 0 && 2 * (k * d) - 2 * (j * d) <= 2 * rise + 2 * d && n * d - rise > d
    ensures k - j < n
  {
    assert (k - j) * d == k * d - j * d;
    CancelLess(k - j, n, d);
  }

  /** 2^40 */
  const SPAN: nat := 1_099_511_627_776

  /** Over d, with `two` the power of two below it, the last cells that are safe have 53 bits and are crowded. */
  predicate CrowdedAt(d: nat, two: nat) {
    two < d && TWO52 * d <= (TWO53 - 1 - SPAN) * two && SPAN * (d - two) > d
  }

  /** The power of two below 10 * d. */
  function TwoBelow(d: nat, two: nat): nat {
    if 10 * d < 16 * two then 8 * two else 16 * two
  }

  /** So they are over d and over the next n - 1 powers of ten. */
  predicate CrowdedFrom(d: nat, two: nat, n: nat)
    decreases n
  {
    n == 0 || (CrowdedAt(d, two) && CrowdedFrom(10 * d, TwoBelow(d, two), n - 1))
  }

  /** A power of ten and the power of two below it. */
  datatype Powers = Powers(ten: nat, two: nat)

  /** Those n scales on. */
  function Advance(d: nat, two: nat, n: nat): Powers
    decreases n
  {
    if n == 0 then Powers(d, two) else Advance(10 * d, TwoBelow(d, two), n - 1)
  }

  lemma {:induction false} CrowdedOn(d: nat, two: nat, m: nat, n: nat)
    requires CrowdedFrom(d, two, m) && CrowdedFrom(Advance(d, two, m).ten, Advance(d, two, m).two, n)
    ensures CrowdedFrom(d, two, m + n)
    decreases m
  {
    if m > 0 { CrowdedOn(10 * d, TwoBelow(d, two), m - 1, n); }
  }

  const TEN11: nat := 100_000_000_000
  const TEN21: nat := 1_000_000_000_000_000_000_000
  const TEN31: nat := 10_000_000_000_000_000_000_000_000_000_000
  const TWO36: nat := 68_719_476_736
  const TWO69: nat := 590_295_810_358_705_651_712
  const TWO102: nat := 5_070_602_400_912_917_605_986_812_821_504

  lemma FirstScales()
    ensures CrowdedFrom(10, 8, 10) && Advance(10, 8, 10) == Powers(TEN11, TWO36)
  {
  }

  lemma NextScales()
    ensures CrowdedFrom(TEN11, TWO36, 10) && Advance(TEN11, TWO36, 10) == Powers(TEN21, TWO69)
  {
  }

  lemma FurtherScales()
    ensures CrowdedFrom(TEN21, TWO69, 10) && Advance(TEN21, TWO69, 10) == Powers(TEN31, TWO102)
  {
  }

  lemma LastScales()
    ensures CrowdedFrom(TEN31, TWO102, 8)
  {
  }

  lemma EveryScaleIsCrowded()
    ensures CrowdedFrom(10, 8, 38)
  {
    LastScales();
    FurtherScales();
    CrowdedOn(TEN21, TWO69, 10, 8);
    NextScales();
    CrowdedOn(TEN11, TWO36, 10, 18);
    FirstScales();
    CrowdedOn(10, 8, 10, 28);
  }

  lemma PowerBelow(d: nat, m: nat) returns (e: nat)
    ensures TwoBelow(d, Pow2(m)) == Pow2(e)
  {
    assert Pow2(m + 3) == 2 * Pow2(m + 2) == 4 * Pow2(m + 1) == 8 * Pow2(m);
    e := if 10 * d < 16 * Pow2(m) then m + 3 else m + 4;
  }

  /** A scale among those, and the power of two below its power of ten. */
  lemma {:induction false} CrowdedScale(d: nat, m: nat, n: nat, i: nat) returns (e: nat)
    requires CrowdedFrom(d, Pow2(m), n) && i < n
    ensures CrowdedAt(d * Pow10(i), Pow2(e))
    decreases n
  {
    if i == 0 {
      assert Pow10(0) == 1 && d * 1 == d;
      return m;
    }
    var next := PowerBelow(d, m);
    e := CrowdedScale(10 * d, next, n - 1, i - 1);
    Grouped(d, 10, Pow10(i - 1));
  }

  // ------------------------------------------------------------- every column

  /** At any scale with places, two neighbouring safe cells of 16 digits show the same number. */
  lemma SafeCellsMeet(scale: nat) returns (v: nat)
    requires 1 <= scale <= 38
    ensures 0 < v < MAX_SAFE_INTEGER && Same(NumberOf(v, scale), NumberOf(v + 1, scale))
  {
    var d := Pow10(scale);
    EveryScaleIsCrowded();
    assert Pow2(3) == 2 * Pow2(2) == 4 * Pow2(1) == 8 * Pow2(0) == 8;
    var e := CrowdedScale(10, 3, 38, scale - 1);
    var unit := Pow2(e);
    CrowdedCellsMeet(TWO53 - 1 - SPAN, TWO53 - 1, unit, d);
    v :| TWO53 - 1 - SPAN <= v < TWO53 - 1 && Meet(v, unit, d);
    FitsAt(v, d, e);
    FitsAt(v + 1, d, e);
  }

  lemma FitsAt(v: nat, d: nat, e: nat)
    requires CrowdedAt(d, Pow2(e)) && TWO53 - 1 - SPAN <= v < TWO53
    ensures 0 < v < TWO53 * d && Places(v, d) == e
  {
    TimesAtMost(TWO53 - 1 - SPAN, v, Pow2(e));
    TimesAtMost(v, TWO53 - 1, Pow2(e));
    TimesAtMost(1, d, TWO53);
    TimesLess(Pow2(e), d, TWO53);
    PlacesAre(v, d, e);
  }

  lemma {:induction false} Pow10Grows(m: nat, n: nat)
    requires m <= n
    ensures Pow10(m) <= Pow10(n)
  {
    if m < n { Pow10Grows(m, n - 1); }
  }

  /**
    A DECIMAL(precision, scale) column shows different numbers for different cells exactly when
    it has at most 15 digits or no decimal places: the guard looks at the unscaled integer, which
    is safe well beyond that.
  */
  lemma TellsApartExactlyWhen(precision: nat, scale: nat)
    requires 1 <= precision <= 38 && scale <= precision
    ensures TellsApart(precision, scale) <==> precision <= 15 || scale == 0
  {
    Sixteen();
    if precision <= 15 {
      Pow10Grows(precision, 15);
      forall a: int, b: int | NumberCell(a, precision) && NumberCell(b, precision) && a != b
        ensures !Same(NumberOf(a, scale), NumberOf(b, scale))
      {
        SmallCellsApart(a, b, scale);
      }
    } else if scale == 0 {
      forall a: int, b: int | NumberCell(a, precision) && NumberCell(b, precision) && a != b
        ensures !Same(NumberOf(a, scale), NumberOf(b, scale))
      {
        WholeCellsApart(a, b);
      }
    } else {
      Pow10Grows(16, precision);
      var v := SafeCellsMeet(scale);
      assert NumberCell(v, precision) && NumberCell(v + 1, precision);
    }
  }

  lemma Sixteen()
    ensures Pow10(15) < TWO52 && MAX_SAFE_INTEGER < Pow10(16)
  {
    assert Pow10(4) == 10_000;
    assert Pow10(8) == 100_000_000;
    assert Pow10(12) == 1_000_000_000_000;
    assert Pow10(15) == 1_000_000_000_000_000;
  }

  /** In a DECIMAL(16,1) column 900719925474098.2 and 900719925474098.3 are shown as the same number. */
  lemma TwoCellsOneNumber()
    ensures Same(NumberOf(9_007_199_254_740_982, 1), NumberOf(9_007_199_254_740_983, 1))
  {
  }
}
