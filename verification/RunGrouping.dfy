/** The grouped, sortable run table. */
module RunGrouping {
  import opened Options
  import opened Sorting

  /** A run. `summary` holds the finite metric values it ended on; `startedAt` is its parsed start. */
  datatype Run = Run(name: string, group: string, status: string, lastStep: int,
                     startedAt: Option<int>, summary: map<string, real>)

  // ---------------------------------------------------------------- comparing

  datatype Column = ByName | ByStatus | ByLastStep | ByStart | ByMetric(metric: string)

  datatype RunSort = RunSort(column: Column, ascending: bool)

  datatype Cell = Text(text: string) | Number(number: real)

  /** The comparable value of one run for a sort column. */
  function SortValue(run: Run, column: Column): Option<Cell> {
    match column
    case ByName => Some(Text(run.name))
    case ByStatus => Some(Text(run.status))
    case ByLastStep => Some(Number(run.lastStep as real))
    case ByStart => if run.startedAt.Some? then Some(Number(run.startedAt.value as real)) else None
    case ByMetric(m) => if m in run.summary then Some(Number(run.summary[m])) else None
  }

  function Signed(ascending: bool, n: int): int {
    if ascending then n else 0 - n
  }

  /** compareRuns, for whatever localeCompare does. */
  function CompareRuns(a: Run, b: Run, sort: RunSort, locale: (string, string) -> int): int {
    var av, bv := SortValue(a, sort.column), SortValue(b, sort.column);
    if av.None? && bv.None? then locale(a.name, b.name)
    else if av.None? then 1
    else if bv.None? then -1
    else match (av.value, bv.value)
      case (Text(x), Text(y)) => Signed(sort.ascending, locale(x, y))
      case (Number(x), Number(y)) =>
        if x == y then locale(a.name, b.name) else Signed(sort.ascending, if x < y then -1 else 1)
      case _ => 0
  }

  function Comparison(sort: RunSort, locale: (string, string) -> int): (Run, Run) -> int {
    (a, b) => CompareRuns(a, b, sort, locale)
  }

  lemma CompareMirrors(a: Run, b: Run, sort: RunSort, locale: (string, string) -> int)
    requires Preorder(locale)
    ensures CompareRuns(a, b, sort, locale) <= 0 <==> CompareRuns(b, a, sort, locale) >= 0
  {
    assert locale(a.name, b.name) <= 0 <==> locale(b.name, a.name) >= 0;
    assert locale(a.status, b.status) <= 0 <==> locale(b.status, a.status) >= 0;
    assert locale(b.name, a.name) <= 0 <==> locale(a.name, b.name) >= 0;
    assert locale(b.status, a.status) <= 0 <==> locale(a.status, b.status) >= 0;
  }

  lemma LocaleChains(x: string, y: string, z: string, locale: (string, string) -> int)
    requires Preorder(locale)
    ensures locale(x, y) <= 0 && locale(y, z) <= 0 ==> locale(x, z) <= 0
    ensures locale(x, y) >= 0 && locale(y, z) >= 0 ==> locale(x, z) >= 0
  {
    LocaleBack(x, y, z, locale);
  }

  lemma CompareChains(a: Run, b: Run, c: Run, sort: RunSort, locale: (string, string) -> int)
    requires Preorder(locale)
    requires CompareRuns(a, b, sort, locale) <= 0 && CompareRuns(b, c, sort, locale) <= 0
    ensures CompareRuns(a, c, sort, locale) <= 0
  {
    LocaleChains(a.name, b.name, c.name, locale);
    LocaleChains(a.status, b.status, c.status, locale);
  }

  lemma LocaleBack(x: string, y: string, z: string, locale: (string, string) -> int)
    requires Preorder(locale)
    ensures locale(x, y) >= 0 && locale(y, z) >= 0 ==> locale(x, z) >= 0
  {
    assert locale(y, x) <= 0 <==> locale(x, y) >= 0;
    assert locale(z, y) <= 0 <==> locale(y, z) >= 0;
    assert locale(z, x) <= 0 <==> locale(x, z) >= 0;
  }

  /** Sorting by a column is well defined: the comparison is a total preorder, in either direction. */
  lemma ComparisonIsPreorder(sort: RunSort, locale: (string, string) -> int)
    requires Preorder(locale)
    ensures Preorder(Comparison(sort, locale))
  {
    var cmp := Comparison(sort, locale);
    forall a: Run, b: Run ensures cmp(a, b) <= 0 <==> cmp(b, a) >= 0 {
      CompareMirrors(a, b, sort, locale);
    }
    forall a: Run, b: Run, c: Run | cmp(a, b) <= 0 && cmp(b, c) <= 0 ensures cmp(a, c) <= 0 {
      CompareChains(a, b, c, sort, locale);
    }
  }

  /** The run shows nothing in the column. */
  predicate Lacks(run: Run, column: Column) {
    match column
    case ByStart => run.startedAt.None?
    case ByMetric(m) => m !in run.summary
    case _ => false
  }

  /** A run without a value for the column comes after every run with one, in either direction. */
  lemma MissingComesLast(a: Run, b: Run, sort: RunSort, locale: (string, string) -> int)
    requires !Lacks(a, sort.column) && Lacks(b, sort.column)
    ensures CompareRuns(a, b, sort, locale) < 0 && CompareRuns(b, a, sort, locale) > 0
  {
  }

  /** x may stand before y: the smaller first when ascending, the larger when descending, ties by name. */
  predicate NumberBefore(x: real, y: real, ascending: bool, tie: bool) {
    if x == y then tie else if ascending then x < y else x > y
  }

  /** a may stand before b in a table sorted this way. */
  predicate MayPrecede(a: Run, b: Run, sort: RunSort, locale: (string, string) -> int) {
    var byName := locale(a.name, b.name) <= 0;
    if Lacks(a, sort.column) || Lacks(b, sort.column) then
      Lacks(b, sort.column) && (Lacks(a, sort.column) ==> byName)
    else
      match sort.column
      case ByName => if sort.ascending then byName else locale(a.name, b.name) >= 0
      case ByStatus => if sort.ascending then locale(a.status, b.status) <= 0 else locale(a.status, b.status) >= 0
      case ByLastStep => NumberBefore(a.lastStep as real, b.lastStep as real, sort.ascending, byName)
      case ByStart => NumberBefore(a.startedAt.value as real, b.startedAt.value as real, sort.ascending, byName)
      case ByMetric(m) => NumberBefore(a.summary[m], b.summary[m], sort.ascending, byName)
  }

  /** What the comparison decides, column by column. */
  lemma ComparesRight(a: Run, b: Run, sort: RunSort, locale: (string, string) -> int)
    ensures CompareRuns(a, b, sort, locale) <= 0 <==> MayPrecede(a, b, sort, locale)
  {
  }

  // ----------------------------------------------------------------- grouping

  datatype Group = Group(key: string, runs: seq<Run>, grouped: bool)

  /** Where the declared group of that name stands. */
  function IndexOf(groups: seq<Group>, key: string): (i: Option<nat>)
    ensures i.Some? ==> i.value < |groups| && groups[i.value].grouped && groups[i.value].key == key
    ensures i.None? ==> forall j :: 0 <= j < |groups| && groups[j].grouped ==> groups[j].key != key
  {
    if groups == [] then None
    else if groups[|groups| - 1].grouped && groups[|groups| - 1].key == key then Some(|groups| - 1)
    else IndexOf(groups[..|groups| - 1], key)
  }

  /** One run put into the table: a row of its own, into its group, or a new group. */
  function Place(groups: seq<Group>, run: Run): seq<Group> {
    var i := IndexOf(groups, run.group);
    if run.group == "" then groups + [Group("", [run], false)]
    else if i.Some? then groups[i.value := groups[i.value].(runs := groups[i.value].runs + [run])]
    else groups + [Group(run.group, [run], true)]
  }

  function GroupsOf(runs: seq<Run>): seq<Group> {
    if runs == [] then [] else Place(GroupsOf(runs[..|runs| - 1]), runs[|runs| - 1])
  }

  /** The map from names to groups tells where each declared group stands. */
  ghost predicate Indexed(groups: seq<Group>, byKey: map<string, nat>) {
    && (forall k <- byKey :: byKey[k] < |groups| && groups[byKey[k]].grouped && groups[byKey[k]].key == k)
    && (forall i :: 0 <= i < |groups| && groups[i].grouped ==> groups[i].key in byKey && byKey[groups[i].key] == i)
  }

  lemma IndexedGrows(groups: seq<Group>, byKey: map<string, nat>, i: nat, run: Run)
    requires Indexed(groups, byKey) && i < |groups|
    ensures Indexed(groups[i := groups[i].(runs := groups[i].runs + [run])], byKey)
  {
  }

  lemma IndexedExtends(groups: seq<Group>, byKey: map<string, nat>, g: Group)
    requires Indexed(groups, byKey) && (g.grouped ==> g.key !in byKey)
    ensures Indexed(groups + [g], if g.grouped then byKey[g.key := |groups|] else byKey)
  {
  }

  method GroupRuns(runs: seq<Run>) returns (out: seq<Group>)
    ensures out == GroupsOf(runs)
  {
    out := [];
    var byKey: map<string, nat> := map[];
    for n := 0 to |runs|
      invariant out == GroupsOf(runs[..n]) && Indexed(out, byKey)
    {
      var run := runs[n];
      assert runs[..n + 1][..n] == runs[..n];
      if run.group == "" {
        IndexedExtends(out, byKey, Group("", [run], false));
        out := out + [Group("", [run], false)];
      } else if run.group in byKey {
        var i := byKey[run.group];
        IndexedGrows(out, byKey, i, run);
        out := out[i := out[i].(runs := out[i].runs + [run])];
      } else {
        IndexedExtends(out, byKey, Group(run.group, [run], true));
        byKey := byKey[run.group := |out|];
        out := out + [Group(run.group, [run], true)];
      }
    }
    assert runs[..|runs|] == runs;
  }

  /** The runs that declare a group, in order. */
  function Members(runs: seq<Run>, key: string): seq<Run> {
    if runs == [] then []
    else Members(runs[..|runs| - 1], key) + if runs[|runs| - 1].group == key then [runs[|runs| - 1]] else []
  }

  /** The runs that begin a row: those that declare no group, and the first of each group. */
  function Firsts(runs: seq<Run>): seq<Run> {
    if runs == [] then []
    else
      var init, run := runs[..|runs| - 1], runs[|runs| - 1];
      Firsts(init) + if run.group == "" || Members(init, run.group) == [] then [run] else []
  }

  function Leaders(groups: seq<Group>): seq<Run>
    requires forall g <- groups :: g.runs != []
  {
    seq(|groups|, i requires 0 <= i < |groups| => groups[i].runs[0])
  }

  function Flatten(groups: seq<Group>): seq<Run> {
    if groups == [] then [] else Flatten(groups[..|groups| - 1]) + groups[|groups| - 1].runs
  }

  /** A row is a run on its own, or all the runs of a group. */
  ghost predicate Row(runs: seq<Run>, g: Group) {
    && g.runs != []
    && if g.grouped then g.key != "" && g.runs == Members(runs, g.key)
       else g.key == "" && |g.runs| == 1 && g.runs[0].group == ""
  }

  ghost predicate DistinctKeys(groups: seq<Group>) {
    forall i, j :: 0 <= i < j < |groups| && groups[i].grouped && groups[j].grouped ==> groups[i].key != groups[j].key
  }

  /** The table of the runs: its rows, in the order their first runs came, with every run in one row. */
  ghost predicate Table(runs: seq<Run>, groups: seq<Group>) {
    && (forall g <- groups :: Row(runs, g)) && DistinctKeys(groups)
    && Leaders(groups) == Firsts(runs)
    && multiset(Flatten(groups)) == multiset(runs)
    && forall key :: key != "" && Members(runs, key) != [] ==> IndexOf(groups, key).Some?
  }

  lemma MembersSnoc(runs: seq<Run>, run: Run, key: string)
    ensures Members(runs + [run], key) == Members(runs, key) + if run.group == key then [run] else []
  {
    assert (runs + [run])[..|runs|] == runs;
  }

  lemma FirstsSnoc(runs: seq<Run>, run: Run)
    ensures Firsts(runs + [run]) ==
            Firsts(runs) + if run.group == "" || Members(runs, run.group) == [] then [run] else []
  {
    assert (runs + [run])[..|runs|] == runs;
  }

  lemma {:induction false} FlattenGrows(groups: seq<Group>, i: nat, run: Run)
    requires i < |groups|
    ensures multiset(Flatten(groups[i := groups[i].(runs := groups[i].runs + [run])]))
            == multiset(Flatten(groups)) + multiset{run}
    decreases |groups|
  {
    var last := |groups| - 1;
    var g := groups[i].(runs := groups[i].runs + [run]);
    if i < last {
      FlattenGrows(groups[..last], i, run);
      assert groups[i := g][..last] == groups[..last][i := g];
    } else {
      assert groups[i := g][..last] == groups[..last];
    }
  }

  /** A row that the run does not join. */
  lemma RowStays(runs: seq<Run>, groups: seq<Group>, run: Run, h: Group)
    requires h in groups && Row(runs, h) && (run.group == "" || IndexOf(groups, run.group).None?)
    ensures Row(runs + [run], h)
  {
    MembersSnoc(runs, run, h.key);
  }

  lemma PlaceRow(runs: seq<Run>, groups: seq<Group>, run: Run, g: Group)
    requires Table(runs, groups) && Row(runs + [run], g) && g.runs == [run] && g.key == run.group
    requires run.group == "" || IndexOf(groups, run.group).None?
    requires run.group == "" <==> !g.grouped
    ensures Table(runs + [run], groups + [g])
  {
    var after := groups + [g];
    forall h | h in groups ensures Row(runs + [run], h) {
      RowStays(runs, groups, run, h);
    }
    FirstsSnoc(runs, run);
    assert Leaders(after) == Leaders(groups) + [run];
    assert after[..|groups|] == groups;
    forall key: string | key != "" && Members(runs + [run], key) != [] ensures IndexOf(after, key).Some? {
      MembersSnoc(runs, run, key);
      assert after[..|groups|] == groups;
    }
  }

  lemma GrownRows(runs: seq<Run>, groups: seq<Group>, run: Run, i: nat)
    requires (forall g <- groups :: Row(runs, g)) && DistinctKeys(groups)
    requires i < |groups| && groups[i].grouped && groups[i].key == run.group
    ensures var after := groups[i := groups[i].(runs := groups[i].runs + [run])];
            forall j :: 0 <= j < |after| ==> Row(runs + [run], after[j])
  {
    var after := groups[i := groups[i].(runs := groups[i].runs + [run])];
    assert groups[i] in groups;
    MembersSnoc(runs, run, run.group);
    forall j | 0 <= j < |after| ensures Row(runs + [run], after[j]) {
      assert groups[j] in groups;
    }
  }

  lemma GrownFinds(runs: seq<Run>, groups: seq<Group>, run: Run, i: nat)
    requires i < |groups| && groups[i].grouped && groups[i].key == run.group
    requires forall key :: key != "" && Members(runs, key) != [] ==> IndexOf(groups, key).Some?
    ensures var after := groups[i := groups[i].(runs := groups[i].runs + [run])];
            forall key :: key != "" && Members(runs + [run], key) != [] ==> IndexOf(after, key).Some?
  {
    var after := groups[i := groups[i].(runs := groups[i].runs + [run])];
    forall key: string | key != "" && Members(runs + [run], key) != [] ensures IndexOf(after, key).Some? {
      MembersSnoc(runs, run, key);
      var k := if key == run.group then i else IndexOf(groups, key).value;
      assert after[k].grouped && after[k].key == key;
    }
  }

  lemma PlaceMember(runs: seq<Run>, groups: seq<Group>, run: Run, i: nat)
    requires Table(runs, groups) && run.group != "" && IndexOf(groups, run.group) == Some(i)
    ensures Table(runs + [run], groups[i := groups[i].(runs := groups[i].runs + [run])])
  {
    var after := groups[i := groups[i].(runs := groups[i].runs + [run])];
    assert groups[i] in groups;
    GrownRows(runs, groups, run, i);
    GrownFinds(runs, groups, run, i);
    FirstsSnoc(runs, run);
    FlattenGrows(groups, i, run);
    GrownLeaders(groups, run, i);
    assert forall g <- after :: Row(runs + [run], g);
  }

  lemma GrownLeaders(groups: seq<Group>, run: Run, i: nat)
    requires i < |groups| && forall g <- groups :: g.runs != []
    ensures var after := groups[i := groups[i].(runs := groups[i].runs + [run])];
            (forall g <- after :: g.runs != []) && Leaders(after) == Leaders(groups)
            && (DistinctKeys(groups) ==> DistinctKeys(after))
  {
    var after := groups[i := groups[i].(runs := groups[i].runs + [run])];
    assert forall j :: 0 <= j < |groups| ==> groups[j] in groups;
    forall g | g in after ensures g.runs != [] {
      var j :| 0 <= j < |after| && after[j] == g;
    }
    assert Leaders(after) == Leaders(groups);
  }

  /** groupRuns buckets the runs into a table: nothing lost, groups whole, rows where their first runs stood. */
  lemma {:induction false} GroupsAreATable(runs: seq<Run>)
    ensures Table(runs, GroupsOf(runs))
    decreases |runs|
  {
    if runs != [] {
      var init, run := runs[..|runs| - 1], runs[|runs| - 1];
      var groups := GroupsOf(init);
      GroupsAreATable(init);
      assert runs == init + [run];
      var i := IndexOf(groups, run.group);
      if run.group == "" {
        PlaceRow(init, groups, run, Group("", [run], false));
      } else if i.Some? {
        PlaceMember(init, groups, run, i.value);
      } else {
        MembersSnoc(init, run, run.group);
        PlaceRow(init, groups, run, Group(run.group, [run], true));
      }
    }
  }

  // ------------------------------------------------------------ sorting groups

  /** A group of the table holds at least one run. */
  type NonEmpty = g: Group | g.runs != [] witness Group("", [Run("", "", "", 0, None, map[])], false)

  function CompareGroups(a: Group, b: Group, sort: RunSort, locale: (string, string) -> int): int {
    if a.runs == [] || b.runs == [] then 0 else CompareRuns(a.runs[0], b.runs[0], sort, locale)
  }

  function GroupComparison(sort: RunSort, locale: (string, string) -> int): (NonEmpty, NonEmpty) -> int {
    (a, b) => CompareGroups(a, b, sort, locale)
  }

  function SortRuns(runs: seq<Run>, sort: RunSort, locale: (string, string) -> int): (r: seq<Run>)
    ensures |r| == |runs|
  {
    Sort(runs, Comparison(sort, locale))
  }

  function SortMembers(groups: seq<NonEmpty>, sort: RunSort, locale: (string, string) -> int): (r: seq<NonEmpty>)
    ensures |r| == |groups|
    ensures forall i :: 0 <= i < |r| ==> r[i] == groups[i].(runs := SortRuns(groups[i].runs, sort, locale))
  {
    if groups == [] then []
    else
      var g := groups[|groups| - 1];
      SortMembers(groups[..|groups| - 1], sort, locale) + [g.(runs := SortRuns(g.runs, sort, locale))]
  }

  function SortGroups(groups: seq<NonEmpty>, sort: RunSort, locale: (string, string) -> int): seq<NonEmpty> {
    Sort(SortMembers(groups, sort, locale), GroupComparison(sort, locale))
  }

  lemma GroupComparisonIsPreorder(sort: RunSort, locale: (string, string) -> int)
    requires Preorder(locale)
    ensures Preorder(GroupComparison(sort, locale))
  {
    var cmp := GroupComparison(sort, locale);
    forall a: NonEmpty, b: NonEmpty ensures cmp(a, b) <= 0 <==> cmp(b, a) >= 0 {
      CompareMirrors(a.runs[0], b.runs[0], sort, locale);
    }
    forall a: NonEmpty, b: NonEmpty, c: NonEmpty | cmp(a, b) <= 0 && cmp(b, c) <= 0 ensures cmp(a, c) <= 0 {
      CompareChains(a.runs[0], b.runs[0], c.runs[0], sort, locale);
    }
  }

  lemma {:induction false} SortMembersKeeps(groups: seq<NonEmpty>, sort: RunSort, locale: (string, string) -> int)
    ensures multiset(Flatten(SortMembers(groups, sort, locale))) == multiset(Flatten(groups))
    decreases |groups|
  {
    if groups != [] {
      var last := |groups| - 1;
      SortMembersKeeps(groups[..last], sort, locale);
      SortKeeps(groups[last].runs, Comparison(sort, locale));
      assert SortMembers(groups, sort, locale)[..last] == SortMembers(groups[..last], sort, locale);
    }
  }

  /** Every run of the rows, however often it comes. */
  function Bag(groups: seq<NonEmpty>): multiset<Run> {
    multiset(Flatten(groups))
  }

  lemma BagSnoc(groups: seq<NonEmpty>, g: NonEmpty)
    ensures Bag(groups + [g]) == Bag(groups) + multiset(g.runs)
  {
  }

  lemma {:induction false} InsertFlattens(g: NonEmpty, groups: seq<NonEmpty>, cmp: (NonEmpty, NonEmpty) -> int)
    ensures Bag(Insert(g, groups, cmp)) == Bag(groups) + multiset(g.runs)
    decreases |groups|
  {
    if groups == [] || cmp(groups[|groups| - 1], g) <= 0 {
      BagSnoc(groups, g);
    } else {
      var init, last := groups[..|groups| - 1], groups[|groups| - 1];
      InsertFlattens(g, init, cmp);
      BagSnoc(Insert(g, init, cmp), last);
      BagSnoc(init, last);
      assert groups == init + [last];
    }
  }

  lemma {:induction false} SortFlattens(groups: seq<NonEmpty>, cmp: (NonEmpty, NonEmpty) -> int)
    ensures Bag(Sort(groups, cmp)) == Bag(groups)
    decreases |groups|
  {
    if groups != [] {
      var init, last := groups[..|groups| - 1], groups[|groups| - 1];
      assert groups == init + [last];
      BagSnoc(init, last);
      SortFlattens(init, cmp);
      InsertFlattens(last, Sort(init, cmp), cmp);
    }
  }

  // ---------------------------------------------------------- the sorted table

  /** The rows of the runs, as groups that hold a run each. */
  function Rows(runs: seq<Run>): (r: seq<NonEmpty>)
    ensures r == GroupsOf(runs)
  {
    GroupsAreATable(runs);
    var groups := GroupsOf(runs);
    assert forall i :: 0 <= i < |groups| ==> groups[i] in groups;
    groups
  }

  function SortedTable(runs: seq<Run>, sort: RunSort, locale: (string, string) -> int): seq<NonEmpty> {
    SortGroups(Rows(runs), sort, locale)
  }

  /** A row of the sorted table: a run on its own, or all the runs of a group and no other, in order. */
  ghost predicate SortedRow(runs: seq<Run>, g: Group, cmp: (Run, Run) -> int) {
    && g.runs != [] && Sorted(g.runs, cmp)
    && if g.grouped then g.key != "" && multiset(g.runs) == multiset(Members(runs, g.key))
       else |g.runs| == 1 && g.runs[0].group == ""
  }

  lemma SortedMembers(runs: seq<Run>, sort: RunSort, locale: (string, string) -> int)
    requires Preorder(locale)
    ensures var groups := SortMembers(Rows(runs), sort, locale);
            && DistinctKeys(groups)
            && forall g <- groups :: SortedRow(runs, g, Comparison(sort, locale))
  {
    GroupsAreATable(runs);
    ComparisonIsPreorder(sort, locale);
    var rows, groups, cmp := Rows(runs), SortMembers(Rows(runs), sort, locale), Comparison(sort, locale);
    forall g | g in groups ensures SortedRow(runs, g, cmp) {
      var i :| 0 <= i < |groups| && groups[i] == g;
      assert Row(runs, rows[i]);
      SortSorts(rows[i].runs, cmp);
      if !g.grouped { InMultiset(g.runs, rows[i].runs, g.runs[0]); }
    }
  }

  /**
    The sorted table, whatever the column and the direction: it shows every run once; each of its
    rows is a lone run, or all of one group, sorted; the rows are in the order of their first
    runs; and the first run of the table is as good as any.
  */
  lemma SortedTableIsRight(runs: seq<Run>, sort: RunSort, locale: (string, string) -> int)
    requires Preorder(locale)
    ensures var table, cmp := SortedTable(runs, sort, locale), Comparison(sort, locale);
            && Bag(table) == multiset(runs)
            && (forall g <- table :: SortedRow(runs, g, cmp))
            && Sorted(table, GroupComparison(sort, locale))
            && forall r <- runs :: table != [] && cmp(table[0].runs[0], r) <= 0
  {
    var rows := Rows(runs);
    var groups, table := SortMembers(rows, sort, locale), SortedTable(runs, sort, locale);
    var cmp := Comparison(sort, locale);
    GroupsAreATable(runs);
    SortedMembers(runs, sort, locale);
    SortMembersKeeps(rows, sort, locale);
    GroupComparisonIsPreorder(sort, locale);
    ComparisonIsPreorder(sort, locale);
    SortFlattens(groups, GroupComparison(sort, locale));
    SortSorts(groups, GroupComparison(sort, locale));
    forall g | g in table ensures SortedRow(runs, g, cmp) {
      InMultiset(table, groups, g);
    }
    forall r | r in runs ensures table != [] && cmp(table[0].runs[0], r) <= 0 {
      assert r in multiset(runs);
      FirstRunIsBest(runs, table, sort, locale, r);
    }
  }

  lemma FirstRunIsBest(runs: seq<Run>, table: seq<NonEmpty>, sort: RunSort, locale: (string, string) -> int, r: Run)
    requires Preorder(Comparison(sort, locale)) && Preorder(GroupComparison(sort, locale))
    requires Sorted(table, GroupComparison(sort, locale))
    requires forall g <- table :: SortedRow(runs, g, Comparison(sort, locale))
    requires r in Bag(table)
    ensures table != [] && CompareRuns(table[0].runs[0], r, sort, locale) <= 0
  {
    var i := RowOf(table, r);
    assert table[i] in table;
    var cmp, byRow := Comparison(sort, locale), GroupComparison(sort, locale);
    FirstIsLeast(table, byRow, table[i]);
    FirstIsLeast(table[i].runs, cmp, r);
    var a, b := table[0].runs[0], table[i].runs[0];
    assert byRow(table[0], table[i]) == cmp(a, b);
    assert cmp(a, b) <= 0 && cmp(b, r) <= 0 ==> cmp(a, r) <= 0;
  }

  lemma {:induction false} RowOf(groups: seq<NonEmpty>, r: Run) returns (i: nat)
    requires r in Bag(groups)
    ensures i < |groups| && r in groups[i].runs
    decreases |groups|
  {
    assert r in Flatten(groups);
    var last := |groups| - 1;
    if r in groups[last].runs { return last; }
    i := RowOf(groups[..last], r);
  }

  lemma {:induction false} InsertKeepsKeys(g: NonEmpty, groups: seq<NonEmpty>, cmp: (NonEmpty, NonEmpty) -> int)
    requires DistinctKeys(groups + [g])
    ensures DistinctKeys(Insert(g, groups, cmp))
    decreases |groups|
  {
    if groups != [] && cmp(groups[|groups| - 1], g) > 0 {
      var init, last := groups[..|groups| - 1], groups[|groups| - 1];
      var all := groups + [g];
      forall i, j | 0 <= i < j < |init + [g]| && (init + [g])[i].grouped && (init + [g])[j].grouped
        ensures (init + [g])[i].key != (init + [g])[j].key
      {
        assert (init + [g])[i] == all[i] && (init + [g])[j] == if j < |init| then all[j] else all[|groups|];
      }
      InsertKeepsKeys(g, init, cmp);
      InsertKeeps(g, init, cmp);
      var r := Insert(g, init, cmp);
      forall i | 0 <= i < |r| && r[i].grouped && last.grouped ensures r[i].key != last.key {
        assert r[i] in multiset(r);
        assert r[i] == g || r[i] in init;
        assert all[|groups| - 1] == last && all[|groups|] == g;
        if r[i] != g { var j :| 0 <= j < |init| && init[j] == r[i]; assert all[j] == r[i]; }
      }
    }
  }

  lemma {:induction false} SortKeepsKeys(groups: seq<NonEmpty>, cmp: (NonEmpty, NonEmpty) -> int)
    requires DistinctKeys(groups)
    ensures DistinctKeys(Sort(groups, cmp))
    decreases |groups|
  {
    if groups != [] {
      var init, last := groups[..|groups| - 1], groups[|groups| - 1];
      SortKeepsKeys(init, cmp);
      SortKeeps(init, cmp);
      var s := Sort(init, cmp);
      forall i | 0 <= i < |s| && s[i].grouped && last.grouped ensures s[i].key != last.key {
        InMultiset(s, init, s[i]);
        var j :| 0 <= j < |init| && init[j] == s[i];
        assert groups[j] == s[i] && groups[|groups| - 1] == last;
      }
      InsertKeepsKeys(last, s, cmp);
    }
  }

  /** No group has two rows. */
  lemma SortedTableHasEachGroupOnce(runs: seq<Run>, sort: RunSort, locale: (string, string) -> int)
    requires Preorder(locale)
    ensures DistinctKeys(SortedTable(runs, sort, locale))
  {
    SortedMembers(runs, sort, locale);
    SortKeepsKeys(SortMembers(Rows(runs), sort, locale), GroupComparison(sort, locale));
  }

  /** The table reads in the order asked for: row by row by their first runs, and within every row. */
  lemma SortedTableReadsInOrder(runs: seq<Run>, sort: RunSort, locale: (string, string) -> int)
    requires Preorder(locale)
    ensures var table := SortedTable(runs, sort, locale);
            && (forall i, j :: 0 <= i < j < |table| ==>
                  MayPrecede(table[i].runs[0], table[j].runs[0], sort, locale))
            && forall g <- table, i, j :: 0 <= i < j < |g.runs| ==> MayPrecede(g.runs[i], g.runs[j], sort, locale)
  {
    SortedTableIsRight(runs, sort, locale);
    var table, cmp := SortedTable(runs, sort, locale), Comparison(sort, locale);
    forall i, j | 0 <= i < j < |table| ensures MayPrecede(table[i].runs[0], table[j].runs[0], sort, locale) {
      assert GroupComparison(sort, locale)(table[i], table[j]) <= 0;
      ComparesRight(table[i].runs[0], table[j].runs[0], sort, locale);
    }
    forall g <- table, i, j | 0 <= i < j < |g.runs| ensures MayPrecede(g.runs[i], g.runs[j], sort, locale) {
      assert SortedRow(runs, g, cmp) && cmp(g.runs[i], g.runs[j]) <= 0;
      ComparesRight(g.runs[i], g.runs[j], sort, locale);
    }
  }
}
