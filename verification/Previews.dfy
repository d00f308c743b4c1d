/**
  What a preview shows of texts as they come: column names asked for and column names repeated,
  empty lines, ragged lines and the limits, said of the text and the numbers alone.
*/
module Previews {
  import opened Decimals
  import opened Delimited
  import opened JsText
  import opened Sequences
  import opened Tabular

  // --------------------------------------------------------------- column names

  /** Column i asks for this name: its own, without the blanks around it, or its position. */
  ghost predicate AsksFor(header: Record, i: nat, name: string)
    requires i < |header|
  {
    if AllBlank(header[i]) then name == "column_" + Decimal(i + 1) else Core(header[i], name)
  }

  lemma AskedIsBase(header: Record, i: nat, name: string)
    requires i < |header| && AsksFor(header, i, name)
    ensures BaseName(header, i) == name
  {
    TrimOf(header[i], name);
  }

  /** A spelling that no earlier column has taken is the name itself. */
  lemma FreshNameIsGiven(header: Record, names: seq<string>, i: nat)
    requires i < |header| == |names| && Named(header, names, i) && BaseName(header, i) !in names[..i]
    ensures names[i] == BaseName(header, i)
  {
    var n: nat :| 1 <= n && names[i] == Spelling(BaseName(header, i), n)
                  && forall m: nat {:trigger Spelling(BaseName(header, i), m)} ::
                       1 <= m < n ==> Spelling(BaseName(header, i), m) in names[..i];
    assert Spelling(BaseName(header, i), 1) == BaseName(header, i);
  }

  /** Columns that ask for different names get them. */
  lemma {:induction false} DistinctNamesAreGiven(header: Record, asked: seq<string>, names: seq<string>, k: nat)
    requires |names| == |header| == |asked| && Distinct(names) && Distinct(asked) && k <= |header|
    requires forall i :: 0 <= i < |names| ==> Named(header, names, i) && AsksFor(header, i, asked[i])
    ensures names[..k] == asked[..k]
    decreases k
  {
    if k > 0 {
      var i := k - 1;
      DistinctNamesAreGiven(header, asked, names, i);
      AskedIsBase(header, i, asked[i]);
      assert asked[i] !in asked[..i];
      FreshNameIsGiven(header, names, i);
      assert names[..k] == names[..i] + [names[i]] && asked[..k] == asked[..i] + [asked[i]];
    }
  }

  lemma EarlierDiffers(names: seq<string>, i: nat, k: nat)
    requires Distinct(names) && i < k < |names|
    ensures names[i] != names[k]
  {
  }

  lemma TakenEarlier(base: string, names: seq<string>, k: nat)
    requires k <= |names| && forall i :: 0 <= i < k ==> names[i] == Spelling(base, i + 1)
    ensures Spelling(base, k + 1) !in names[..k]
  {
    forall j | 0 <= j < k ensures names[..k][j] != Spelling(base, k + 1) {
      if Spelling(base, j + 1) == Spelling(base, k + 1) { SpellingInjective(base, j + 1, k + 1); }
    }
  }

  /** Columns that all ask for the same name are numbered from the second on. */
  lemma {:induction false} RepeatsAreNumbered(header: Record, base: string, names: seq<string>, k: nat)
    requires |names| == |header| && Distinct(names) && k < |header|
    requires forall i :: 0 <= i < |names| ==> Named(header, names, i) && Core(header[i], base)
    ensures names[k] == if k == 0 then base else base + "_" + Decimal(k + 1)
    decreases k
  {
    forall i | 0 <= i < k ensures names[i] == Spelling(base, i + 1) { RepeatsAreNumbered(header, base, names, i); }
    TrimOf(header[k], base);
    assert Named(header, names, k) && BaseName(header, k) == base;
    var n: nat :| 1 <= n && names[k] == Spelling(base, n)
                  && forall m: nat {:trigger Spelling(base, m)} :: 1 <= m < n ==> Spelling(base, m) in names[..k];
    if n <= k { EarlierDiffers(names, n - 1, k); }
    if n > k + 1 { TakenEarlier(base, names, k); }
  }

  // ---------------------------------------------------------------------- lines

  lemma FilledKept(table: seq<Record>)
    requires table != []
    ensures Filled(Kept(table)) == Filled(table)
  {
    var front, last := table[..|table| - 1], table[|table| - 1];
    Unsnoc(table);
    FilledGrow(table, |table| - 1);
    assert table[..|table|] == table;
  }

  lemma EmptyRecordIsSkipped(a: seq<Record>, b: seq<Record>)
    ensures Filled(a + [[""]] + b) == Filled(a + b)
  {
    FilledAppend(a + [[""]], b);
    FilledAppend(a, [[""]]);
    FilledAppend(a, b);
    assert [[""]][..0] == [];
    assert Filled([[""]]) == [];
  }

  lemma FilledOfText(d: char, table: seq<Record>)
    requires Separates(d) && table != [] && (forall x <- table :: x != []) && table[0] != []
    requires !OpensWithBom(d, table[0])
    ensures Filled(Records(Print(d, table), d)) == Filled(table)
  {
    PrintedTableReads(d, table);
    FilledKept(table);
  }

  lemma OnlyFilledCount(a: seq<Record>, b: seq<Record>, r: ParseResult)
    requires Filled(a) == Filled(b)
    ensures Previews(a, r) <==> Previews(b, r)
  {
  }

  /** A line without content, anywhere among the lines of a printed table, is not there for the preview. */
  lemma EmptyLinesAreSkipped(d: char, a: seq<Record>, b: seq<Record>, r: ParseResult)
    requires Separates(d) && a != [] && a[0] != [] && (forall x <- a + b :: x != []) && !OpensWithBom(d, a[0])
    ensures Previews(Records(Print(d, a + [[""]] + b), d), r) <==> Previews(Records(Print(d, a + b), d), r)
  {
    var spaced, plain := a + [[""]] + b, a + b;
    assert spaced[0] == a[0] == plain[0] && a[0] in plain;
    forall x <- spaced ensures x != [] { assert x in plain || x == [""]; }
    FilledOfText(d, spaced);
    FilledOfText(d, plain);
    EmptyRecordIsSkipped(a, b);
    OnlyFilledCount(Records(Print(d, spaced), d), Records(Print(d, plain), d), r);
  }

  /** The positions of the records of another width. */
  function RaggedAt(records: seq<Record>, width: nat): set<nat> {
    set i: nat | i < |records| && |records[i]| != width
  }

  lemma {:induction false} RaggedCounts(records: seq<Record>, width: nat)
    ensures Ragged(records, width) == |RaggedAt(records, width)|
    decreases |records|
  {
    if records == [] {
      assert RaggedAt(records, width) == {};
    } else {
      var front := records[..|records| - 1];
      RaggedCounts(front, width);
      assert RaggedAt(records, width) ==
             RaggedAt(front, width) + if |records[|front|]| != width then {|front|} else {};
    }
  }

  /** A preview is refused for its ragged lines if there are more than two and more than one in ten. */
  lemma RefusedExactlyWhenRagged(malformed: nat, kept: nat)
    ensures TooManyMalformed(malformed, kept) <==>
            malformed > 2 && (malformed as real) / ((malformed + kept) as real) > 0.1
  {
    if malformed > 0 {
      var total := malformed + kept;
      RatioOver(malformed as real, total as real);
    }
  }

  lemma RatioOver(m: real, total: real)
    requires total > 0.0
    ensures m / total > 0.1 <==> 10.0 * m > total
  {
    var q := m / total;
    assert q * total == m;
    if q > 0.1 { assert (q - 0.1) * total > 0.0; }
    if q <= 0.1 { assert (0.1 - q) * total >= 0.0; }
  }

  lemma {:induction false} AllBlankRecords(records: seq<Record>)
    ensures Filled(records) == [] <==> forall x <- records :: x == [] || x == [""]
    decreases |records|
  {
    if records != [] {
      var front, last := records[..|records| - 1], records[|records| - 1];
      AllBlankRecords(front);
      Unsnoc(records);
      assert |Filled(records)| == |Filled(front)| + if last == [] || last == [""] then 0 else 1;
      assert last in records && (forall x <- front :: x in records) && forall x <- records :: x in front || x == last;
    }
  }

  lemma {:induction false} AllFilled(records: seq<Record>)
    requires forall x <- records :: x != [] && x != [""]
    ensures Filled(records) == records
    decreases |records|
  {
    if records != [] {
      var front := records[..|records| - 1];
      assert records[|records| - 1] in records;
      forall x <- front ensures x != [] && x != [""] { assert x in records; }
      AllFilled(front);
      Unsnoc(records);
    }
  }

  /** Too many lines of another width, among the lines shown. */
  predicate TooRagged(shown: seq<Record>, width: nat) {
    var n := |RaggedAt(shown, width)|;
    n > 2 && (n as real) / ((n + |shown|) as real) > 0.1
  }

  /**
    What the preview of a table without empty lines is, at every size: refused for more than 512
    columns or for too many ragged lines, else a row for each of the first 50,000 lines after the
    header, the ragged ones counted, and a note if there were more.
  */
  lemma PreviewIsDecided(records: seq<Record>, r: ParseResult)
    requires records != [] && (forall x <- records :: x != [] && x != [""]) && Previews(records, r)
    ensures var width, lines := |records[0]|, |records| - 1;
            var shown := records[1..if lines > 50_000 then 50_001 else lines + 1];
            && !r.NoRows?
            && (r.TooManyColumns? <==> width > 512) && (r.TooManyColumns? ==> r.columns_ == width)
            && (r.RaggedRows? <==> width <= 512 && TooRagged(shown, width))
            && (r.Preview? ==> && |r.rows| == |shown| && |r.columns| == width && Distinct(r.columns)
                               && r.malformed == |RaggedAt(shown, width)|
                               && (r.truncated <==> lines > 50_000)
                               && forall k :: 0 <= k < |shown| ==> RowShows(r.columns, shown[k], r.rows[k]))
  {
    AllFilled(records);
    var shown := Take(records[1..], MAX_ROWS);
    assert shown == records[1..if |records| - 1 > 50_000 then 50_001 else |records|];
    RaggedCounts(shown, |records[0]|);
    RefusedExactlyWhenRagged(Ragged(shown, |records[0]|), |shown|);
  }

  /** And without a line that is not empty there is none. */
  lemma NoPreviewExactlyWhenEmpty(records: seq<Record>, r: ParseResult)
    requires Previews(records, r)
    ensures r.NoRows? <==> forall x <- records :: x == [] || x == [""]
  {
    AllBlankRecords(records);
  }
}
