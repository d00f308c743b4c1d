/** Which runs a project page opens with. */
module RunSelection {
  import opened Options
  import opened Sorting

  /**
    A run: whether it is archived or running, when it was last heard of, and its best value of the
    primary goal metric.
  */
  datatype Run = Run(name: string, archived: bool, running: bool, updated: int, best: Option<real>)

  /** The project's primary goal: none, or a metric that is better low or better high. */
  datatype Goal = NoGoal | Lower | Higher

  const FALLBACK: int := 5
  const RUNNING_FIRST: int := 3

  function ByUpdated(locale: (string, string) -> int): (Run, Run) -> int {
    (a: Run, b: Run) => if a.updated == b.updated then locale(a.name, b.name) else b.updated - a.updated
  }

  function ByValue(goal: Goal, locale: (string, string) -> int): (Run, Run) -> int {
    (a: Run, b: Run) =>
      var (x, y) := (if a.best.Some? then a.best.value else 0.0, if b.best.Some? then b.best.value else 0.0);
      if x == y then locale(a.name, b.name) else if (x < y) == goal.Lower? then -1 else 1
  }

  /** What the lists are filtered by. */
  datatype Test = IsActive | IsRunning | HasValue | Among(names: set<string>)

  predicate Passes(keep: Test, r: Run) {
    match keep
    case IsActive => !r.archived
    case IsRunning => r.running
    case HasValue => r.best.Some?
    case Among(names) => r.name in names
  }

  function Filter(runs: seq<Run>, keep: Test): seq<Run> {
    if runs == [] then []
    else Filter(runs[..|runs| - 1], keep) + if Passes(keep, runs[|runs| - 1]) then [runs[|runs| - 1]] else []
  }

  function Active(runs: seq<Run>): seq<Run> { Filter(runs, IsActive) }

  function Running(runs: seq<Run>, locale: (string, string) -> int): seq<Run> {
    Sort(Filter(Active(runs), IsRunning), ByUpdated(locale))
  }

  /** The active runs that have a value of the goal metric, best first. */
  function Ranked(runs: seq<Run>, goal: Goal, locale: (string, string) -> int): seq<Run> {
    if goal.NoGoal? then [] else Sort(Filter(Active(runs), HasValue), ByValue(goal, locale))
  }

  function Names(runs: seq<Run>): set<string> {
    set r <- runs :: r.name
  }

  function Min(a: int, b: int): int { if a < b then a else b }

  function Max(a: int, b: int): int { if a < b then b else a }

  /** add: names of the list, in order, until the cap. */
  function Take(picked: set<string>, list: seq<Run>, cap: int): set<string>
    decreases |list|
  {
    if list == [] || |picked| >= cap then picked else Take(picked + {list[0].name}, list[1..], cap)
  }

  method Add(picked: set<string>, list: seq<Run>, cap: int) returns (out: set<string>)
    ensures out == Take(picked, list, cap)
  {
    out := picked;
    var i := 0;
    while i < |list| && |out| < cap
      invariant 0 <= i <= |list| && Take(out, list[i..], cap) == Take(picked, list, cap)
    {
      assert list[i..][0] == list[i] && list[i..][1..] == list[i + 1..];
      out := out + {list[i].name};
      i := i + 1;
    }
  }

  function First(running: seq<Run>, ranked: seq<Run>, limit: int): set<string> {
    Take({}, running, if ranked != [] then Min(RUNNING_FIRST, limit) else limit)
  }

  /** The names picked by the four steps. */
  function Picked(runs: seq<Run>, goal: Goal, limit: int, locale: (string, string) -> int): set<string> {
    var running, ranked := Running(runs, locale), Ranked(runs, goal, locale);
    var p := Take(Take(First(running, ranked, limit), ranked, limit), running, limit);
    if ranked == [] || p == {} then Take(p, Sort(Active(runs), ByUpdated(locale)), Max(|p|, FALLBACK)) else p
  }

  function NamesOf(runs: seq<Run>): (names: seq<string>)
    ensures |names| == |runs| && forall i :: 0 <= i < |runs| ==> names[i] == runs[i].name
  {
    seq(|runs|, i requires 0 <= i < |runs| => runs[i].name)
  }

  function Selection(runs: seq<Run>, goal: Goal, limit: int, locale: (string, string) -> int): seq<string> {
    var picked := Picked(runs, goal, limit, locale);
    NamesOf(Filter(runs, Among(picked)))
  }

  method DefaultRunSelection(runs: seq<Run>, goal: Goal, limit: int, locale: (string, string) -> int)
    returns (names: seq<string>)
    ensures names == Selection(runs, goal, limit, locale)
  {
    var active := Active(runs);
    var running := Running(runs, locale);
    var ranked := Ranked(runs, goal, locale);
    var picked := Add({}, running, if |ranked| > 0 then Min(RUNNING_FIRST, limit) else limit);
    picked := Add(picked, ranked, limit);
    picked := Add(picked, running, limit);
    if ranked == [] || picked == {} {
      picked := Add(picked, Sort(active, ByUpdated(locale)), Max(|picked|, FALLBACK));
    }
    return NamesOf(Filter(runs, Among(picked)));
  }

  // -------------------------------------------------------------- filling up

  lemma AllNames(picked: set<string>, list: seq<Run>)
    requires list != []
    ensures picked + {list[0].name} + Names(list[1..]) == picked + Names(list)
    ensures |picked| <= |picked + {list[0].name}| <= |picked| + 1
    ensures |picked + {list[0].name}| <= |picked + Names(list)|
  {
    var more := picked + {list[0].name};
    assert list == [list[0]] + list[1..];
    Grows(more, Names(list[1..]));
    assert list[0].name in picked ==> more == picked;
  }

  lemma {:induction false} TakeFills(picked: set<string>, list: seq<Run>, cap: int)
    ensures var r := Take(picked, list, cap);
            && picked <= r <= picked + Names(list)
            && |r| == Max(|picked|, Min(cap, |picked + Names(list)|))
            && (|r| < cap ==> r == picked + Names(list))
    decreases |list|
  {
    if list == [] {
      assert picked + Names(list) == picked;
    } else if |picked| < cap {
      AllNames(picked, list);
      TakeFills(picked + {list[0].name}, list[1..], cap);
    } else {
      Grows(picked, Names(list));
    }
  }

  lemma Grows(a: set<string>, b: set<string>)
    ensures |a| <= |a + b|
  {
    assert a + b == a + (b - a);
  }

  lemma {:induction false} FilterHolds(runs: seq<Run>, keep: Test, r: Run)
    ensures r in Filter(runs, keep) <==> r in runs && Passes(keep, r)
  {
    if runs != [] {
      FilterHolds(runs[..|runs| - 1], keep, r);
      assert runs == runs[..|runs| - 1] + [runs[|runs| - 1]];
    }
  }

  lemma SortNames(runs: seq<Run>, cmp: (Run, Run) -> int)
    ensures Names(Sort(runs, cmp)) == Names(runs)
  {
    SortKeeps(runs, cmp);
    forall r ensures r in Sort(runs, cmp) <==> r in runs { InMultiset(Sort(runs, cmp), runs, r); }
  }

  /** The three lists hold names of active runs. */
  lemma ListsAreActive(runs: seq<Run>, goal: Goal, locale: (string, string) -> int)
    ensures Names(Running(runs, locale)) <= Names(Active(runs))
            && Names(Ranked(runs, goal, locale)) <= Names(Active(runs))
    ensures Names(Sort(Active(runs), ByUpdated(locale))) == Names(Active(runs))
  {
    var active := Active(runs);
    SortNames(Filter(active, IsRunning), ByUpdated(locale));
    SortNames(Filter(active, HasValue), ByValue(goal, locale));
    SortNames(active, ByUpdated(locale));
    forall r ensures r in Filter(active, IsRunning) ==> r in active { FilterHolds(active, IsRunning, r); }
    forall r ensures r in Filter(active, HasValue) ==> r in active { FilterHolds(active, HasValue, r); }
  }

  // ------------------------------------------------------------ how many

  lemma MaxSame(a: set<string>, b: set<string>)
    requires a <= b
    ensures |a| <= |b|
  {
    Grows(a, b);
    assert a + b == b;
  }

  /** out is picked filled up from a set, to the cap. */
  ghost predicate TopsUp(picked: set<string>, from: set<string>, cap: int, out: set<string>) {
    && picked <= out <= picked + from
    && |out| == Max(|picked|, Min(cap, |picked + from|))
    && (|out| < cap ==> out == picked + from)
  }

  lemma ThreeFillings(running: set<string>, ranked: set<string>, cap: int, limit: int,
                      f: set<string>, s: set<string>, t: set<string>)
    requires cap <= limit && TopsUp({}, running, cap, f) && TopsUp(f, ranked, limit, s) && TopsUp(s, running, limit, t)
    ensures t <= running + ranked && |t| == Max(0, Min(limit, |running + ranked|))
  {
    var all := running + ranked;
    assert {} + running == running;
    TwoFillings(running, ranked, limit, f, s);
    MaxSame(s + running, all);
    MaxSame(s, all);
    Grows(s, running);
  }

  lemma TwoFillings(running: set<string>, ranked: set<string>, limit: int, f: set<string>, s: set<string>)
    requires f <= running && |f| <= Max(0, limit) && TopsUp(f, ranked, limit, s)
    ensures s <= running + ranked && |s| <= Max(0, limit) && (|s| < limit ==> s + running == running + ranked)
  {
    MaxSame(f + ranked, running + ranked);
  }

  /** How many the first three steps pick from the running and the ranked. */
  lemma ThreeSteps(running: seq<Run>, ranked: seq<Run>, limit: int)
    ensures var p := Take(Take(First(running, ranked, limit), ranked, limit), running, limit);
            && p <= Names(running) + Names(ranked)
            && |p| == Max(0, Min(limit, |Names(running) + Names(ranked)|))
  {
    var cap := if ranked != [] then Min(RUNNING_FIRST, limit) else limit;
    var first := First(running, ranked, limit);
    var second := Take(first, ranked, limit);
    TakeFills({}, running, cap);
    TakeFills(first, ranked, limit);
    TakeFills(second, running, limit);
    ThreeFillings(Names(running), Names(ranked), cap, limit, first, second, Take(second, running, limit));
  }

  /** How many runs are picked, in every case. */
  function Size(runs: seq<Run>, goal: Goal, limit: int, locale: (string, string) -> int): int {
    var running, ranked := Names(Running(runs, locale)), Names(Ranked(runs, goal, locale));
    var best := Max(0, Min(limit, |running + ranked|));
    if ranked == {} || best == 0 then Min(Max(best, FALLBACK), |Names(Active(runs))|) else best
  }

  lemma ToppedUp(p: set<string>, list: seq<Run>)
    requires p <= Names(list)
    ensures var out := Take(p, list, Max(|p|, FALLBACK));
            out <= Names(list) && |out| == Min(Max(|p|, FALLBACK), |Names(list)|)
  {
    TakeFills(p, list, Max(|p|, FALLBACK));
    assert p + Names(list) == Names(list);
    MaxSame(p, Names(list));
  }

  lemma PickedSize(runs: seq<Run>, goal: Goal, limit: int, locale: (string, string) -> int)
    ensures Picked(runs, goal, limit, locale) <= Names(Active(runs))
    ensures |Picked(runs, goal, limit, locale)| == Size(runs, goal, limit, locale)
  {
    var running, ranked := Running(runs, locale), Ranked(runs, goal, locale);
    ListsAreActive(runs, goal, locale);
    ThreeSteps(running, ranked, limit);
    FourthStep(Take(Take(First(running, ranked, limit), ranked, limit), running, limit), running, ranked,
               Sort(Active(runs), ByUpdated(locale)), limit);
  }

  lemma FourthStep(p: set<string>, running: seq<Run>, ranked: seq<Run>, list: seq<Run>, limit: int)
    requires Names(running) <= Names(list) && Names(ranked) <= Names(list) && p <= Names(running) + Names(ranked)
    requires |p| == Max(0, Min(limit, |Names(running) + Names(ranked)|))
    ensures var out := if ranked == [] || p == {} then Take(p, list, Max(|p|, FALLBACK)) else p;
            && out <= Names(list)
            && |out| == if Names(ranked) == {} || |p| == 0 then Min(Max(|p|, FALLBACK), |Names(list)|) else |p|
  {
    NoNames(ranked);
    ToppedUp(p, list);
  }

  lemma NoNames(s: seq<Run>)
    ensures Names(s) == {} <==> s == []
  {
    assert s != [] ==> s[0].name in Names(s);
  }

  // ------------------------------------------------------------ which they are

  ghost predicate UniqueNames(runs: seq<Run>) {
    forall i, j :: 0 <= i < j < |runs| ==> runs[i].name != runs[j].name
  }

  lemma {:induction false} NamesCount(runs: seq<Run>)
    requires UniqueNames(runs)
    ensures |Names(runs)| == |runs|
    decreases |runs|
  {
    if runs != [] {
      var init, last := runs[..|runs| - 1], runs[|runs| - 1];
      NamesCount(init);
      assert runs == init + [last];
      assert Names(runs) == Names(init) + {last.name};
      assert last.name !in Names(init);
    }
  }

  /** Runs of the list, in its order, each once. */
  ghost predicate Subsequence(s: seq<Run>, runs: seq<Run>) {
    exists at: seq<nat> ::
      |at| == |s| && (forall i :: 0 <= i < |s| ==> at[i] < |runs| && runs[at[i]] == s[i])
      && (forall i, j :: 0 <= i < j < |at| ==> at[i] < at[j])
  }

  lemma {:induction false} FilterIsSubsequence(runs: seq<Run>, keep: Test) returns (at: seq<nat>)
    ensures var s := Filter(runs, keep);
            && |at| == |s| && (forall i :: 0 <= i < |s| ==> at[i] < |runs| && runs[at[i]] == s[i])
            && (forall i, j :: 0 <= i < j < |at| ==> at[i] < at[j])
    decreases |runs|
  {
    at := [];
    if runs != [] {
      at := FilterIsSubsequence(runs[..|runs| - 1], keep);
      if Passes(keep, runs[|runs| - 1]) { at := at + [|runs| - 1]; }
    }
  }

  lemma FilterIsUnique(runs: seq<Run>, keep: Test)
    requires UniqueNames(runs)
    ensures UniqueNames(Filter(runs, keep))
  {
    var at := FilterIsSubsequence(runs, keep);
    var s := Filter(runs, keep);
    forall i, j | 0 <= i < j < |s| ensures s[i].name != s[j].name {
      assert runs[at[i]] == s[i] && runs[at[j]] == s[j];
    }
  }

  /**
    The default selection, for runs with names of their own: their order is kept, no archived run
    is among them, there is one whenever a run is active, and there are exactly as many as Size says.
  */
  lemma SelectionIsRight(runs: seq<Run>, goal: Goal, limit: int, locale: (string, string) -> int)
    requires UniqueNames(runs)
    ensures var kept := Filter(runs, Among(Picked(runs, goal, limit, locale)));
            && Selection(runs, goal, limit, locale) == NamesOf(kept)
            && Subsequence(kept, runs) && (forall r <- kept :: !r.archived)
            && |kept| == Size(runs, goal, limit, locale)
            && |kept| <= Max(limit, FALLBACK)
            && (Active(runs) != [] ==> kept != [])
  {
    var picked := Picked(runs, goal, limit, locale);
    var kept := Filter(runs, Among(picked));
    var at := FilterIsSubsequence(runs, Among(picked));
    PickedSize(runs, goal, limit, locale);
    forall r | r in kept ensures !r.archived {
      KeptIsActive(runs, picked, r);
    }
    KeptNames(runs, picked);
    FilterIsUnique(runs, Among(picked));
    NamesCount(kept);
    assert Active(runs) != [] ==> Active(runs)[0].name in Names(Active(runs));
    SizeBounds(runs, goal, limit, locale);
  }

  lemma KeptIsActive(runs: seq<Run>, picked: set<string>, r: Run)
    requires UniqueNames(runs) && picked <= Names(Active(runs)) && r in Filter(runs, Among(picked))
    ensures !r.archived
  {
    FilterHolds(runs, Among(picked), r);
    var a := ActiveRun(runs, r.name);
    var i :| 0 <= i < |runs| && runs[i] == r;
    var j :| 0 <= j < |runs| && runs[j] == a;
  }

  lemma ActiveRun(runs: seq<Run>, name: string) returns (r: Run)
    requires name in Names(Active(runs))
    ensures r in runs && !r.archived && r.name == name
  {
    r :| r in Active(runs) && r.name == name;
    FilterHolds(runs, IsActive, r);
  }

  lemma KeptNames(runs: seq<Run>, picked: set<string>)
    requires picked <= Names(Active(runs))
    ensures Names(Filter(runs, Among(picked))) == picked
  {
    var kept := Filter(runs, Among(picked));
    forall name ensures name in Names(kept) <==> name in picked {
      if name in picked {
        var r := ActiveRun(runs, name);
        FilterHolds(runs, Among(picked), r);
      }
      if name in Names(kept) {
        var r :| r in kept && r.name == name;
        FilterHolds(runs, Among(picked), r);
      }
    }
  }

  lemma SizeBounds(runs: seq<Run>, goal: Goal, limit: int, locale: (string, string) -> int)
    ensures Size(runs, goal, limit, locale) <= Max(limit, FALLBACK)
    ensures Names(Active(runs)) != {} ==> Size(runs, goal, limit, locale) > 0
  {
  }

  // --------------------------------------------------------------- the best run

  lemma UniqueTail(list: seq<Run>, n: nat)
    requires UniqueNames(list) && 1 <= n <= |list|
    ensures UniqueNames(list[1..]) && list[0].name !in Names(list[1..])
    ensures Names(list[..n]) == {list[0].name} + Names(list[1..][..n - 1])
    ensures Names(list) == {list[0].name} + Names(list[1..])
  {
    assert list == [list[0]] + list[1..];
    assert list[..n] == [list[0]] + list[1..][..n - 1];
  }

  lemma OneMoreName(picked: set<string>, list: seq<Run>, cap: int)
    requires UniqueNames(list) && list != [] && Names(list) !! picked && |picked| < cap
    ensures var more := picked + {list[0].name};
            |more| == |picked| + 1 && Names(list[1..]) !! more && UniqueNames(list[1..])
  {
    UniqueTail(list, |list|);
    assert list[0].name in Names(list);
  }

  lemma TakenNames(picked: set<string>, list: seq<Run>, n: nat)
    requires UniqueNames(list) && 1 <= n <= |list|
    ensures picked + {list[0].name} + Names(list[1..][..n - 1]) == picked + Names(list[..n])
  {
    UniqueTail(list, n);
  }

  lemma {:induction false} TakeFromStart(picked: set<string>, list: seq<Run>, cap: int)
    requires UniqueNames(list) && |picked| <= cap && Names(list) !! picked
    ensures Take(picked, list, cap) == picked + Names(list[..Min(cap - |picked|, |list|)])
    decreases |list|
  {
    if list == [] || |picked| == cap {
      NoneTaken(picked, list, cap);
    } else {
      OneMoreName(picked, list, cap);
      TakenNames(picked, list, Min(cap - |picked|, |list|));
      TakeFromStart(picked + {list[0].name}, list[1..], cap);
    }
  }

  lemma NoneTaken(picked: set<string>, list: seq<Run>, cap: int)
    requires list == [] || |picked| == cap
    requires |picked| <= cap
    ensures Take(picked, list, cap) == picked + Names(list[..Min(cap - |picked|, |list|)])
  {
    assert list[..0] == [] && picked + Names([]) == picked;
  }

  lemma {:induction false} CountedNames(s: seq<Run>)
    requires |Names(s)| == |s|
    ensures UniqueNames(s)
    decreases |s|
  {
    if s != [] {
      var init, last := s[..|s| - 1], s[|s| - 1];
      assert s == init + [last];
      assert Names(s) == Names(init) + {last.name};
      NamesAtMost(init);
      assert last.name in Names(init) ==> Names(s) == Names(init);
      CountedNames(init);
      forall i | 0 <= i < |init| ensures s[i].name != last.name {
        assert s[i] == init[i] && init[i].name in Names(init);
      }
    }
  }

  lemma {:induction false} NamesAtMost(s: seq<Run>)
    ensures |Names(s)| <= |s|
    decreases |s|
  {
    if s != [] {
      var init, last := s[..|s| - 1], s[|s| - 1];
      NamesAtMost(init);
      assert s == init + [last];
      assert Names(s) == Names(init) + {last.name};
    }
  }

  lemma RunningIsUnique(runs: seq<Run>, locale: (string, string) -> int)
    requires UniqueNames(runs)
    ensures UniqueNames(Running(runs, locale))
  {
    FilterIsUnique(runs, IsActive);
    var list := Filter(Active(runs), IsRunning);
    FilterIsUnique(Active(runs), IsRunning);
    NamesCount(list);
    SortNames(list, ByUpdated(locale));
    CountedNames(Running(runs, locale));
  }

  /**
    The best run by the goal metric is selected exactly when the limit leaves it room (it is over
    three, or over the number of running runs), or it is itself among the first running ones.
  */
  lemma BestIsSelectedExactlyWhen(runs: seq<Run>, goal: Goal, limit: int, locale: (string, string) -> int)
    requires UniqueNames(runs) && limit >= 1 && Ranked(runs, goal, locale) != []
    ensures var running, best := Running(runs, locale), Ranked(runs, goal, locale)[0];
            best.name in Picked(runs, goal, limit, locale)
            <==> limit > RUNNING_FIRST || |running| < limit || best.name in Names(running[..Min(limit, |running|)])
  {
    var running, ranked := Running(runs, locale), Ranked(runs, goal, locale);
    RunningIsUnique(runs, locale);
    var cap := Min(RUNNING_FIRST, limit);
    var first := First(running, ranked, limit);
    var second := Take(first, ranked, limit);
    TakeFromStart({}, running, cap);
    assert {} + Names(running[..Min(cap, |running|)]) == Names(running[..Min(cap, |running|)]);
    NamesCountPrefix(running, Min(cap, |running|));
    TakesFirst(first, ranked, limit);
    TakesFirst(second, running, limit);
    TakeFills(first, ranked, limit);
    TakeFills(second, running, limit);
    SomethingPicked(running, ranked, limit);
  }

  /** Room for one more is taken by the first of the list; no room, by none. */
  lemma TakesFirst(picked: set<string>, list: seq<Run>, cap: int)
    ensures |picked| >= cap ==> Take(picked, list, cap) == picked
    ensures |picked| < cap && list != [] ==> list[0].name in Take(picked, list, cap)
  {
    if |picked| < cap && list != [] { TakeFills(picked + {list[0].name}, list[1..], cap); }
  }

  lemma SomethingPicked(running: seq<Run>, ranked: seq<Run>, limit: int)
    requires limit >= 1 && ranked != []
    ensures Take(Take(First(running, ranked, limit), ranked, limit), running, limit) != {}
  {
    var first := First(running, ranked, limit);
    var second := Take(first, ranked, limit);
    TakesFirst(first, ranked, limit);
    TakeFills(second, running, limit);
  }

  lemma NamesCountPrefix(s: seq<Run>, n: nat)
    requires UniqueNames(s) && n <= |s|
    ensures |Names(s[..n])| == n
  {
    NamesCount(s[..n]);
  }

  lemma ByValueIsPreorder(goal: Goal, locale: (string, string) -> int)
    requires Preorder(locale)
    ensures Preorder(ByValue(goal, locale))
  {
    var cmp := ByValue(goal, locale);
    forall a: Run, b: Run ensures cmp(a, b) <= 0 <==> cmp(b, a) >= 0 {
      assert locale(a.name, b.name) <= 0 <==> locale(b.name, a.name) >= 0;
      assert locale(b.name, a.name) <= 0 <==> locale(a.name, b.name) >= 0;
    }
    forall a: Run, b: Run, c: Run | cmp(a, b) <= 0 && cmp(b, c) <= 0 ensures cmp(a, c) <= 0 {
      assert locale(a.name, b.name) <= 0 && locale(b.name, c.name) <= 0 ==> locale(a.name, c.name) <= 0;
    }
  }

  lemma RankedHolds(runs: seq<Run>, goal: Goal, locale: (string, string) -> int, r: Run)
    requires !goal.NoGoal?
    ensures r in Ranked(runs, goal, locale) <==> r in runs && !r.archived && r.best.Some?
  {
    var list := Filter(Active(runs), HasValue);
    FilterHolds(runs, IsActive, r);
    FilterHolds(Active(runs), HasValue, r);
    SortKeeps(list, ByValue(goal, locale));
    InMultiset(Ranked(runs, goal, locale), list, r);
  }

  lemma RankedIsSorted(runs: seq<Run>, goal: Goal, locale: (string, string) -> int)
    requires Preorder(locale) && !goal.NoGoal?
    ensures Sorted(Ranked(runs, goal, locale), ByValue(goal, locale))
  {
    ByValueIsPreorder(goal, locale);
    SortSorts(Filter(Active(runs), HasValue), ByValue(goal, locale));
  }

  /** The best run is one: no active run has a better value of the goal metric. */
  lemma RankedFirstIsBest(runs: seq<Run>, goal: Goal, locale: (string, string) -> int, r: Run)
    requires Preorder(locale) && !goal.NoGoal? && r in runs && !r.archived && r.best.Some?
    ensures var ranked := Ranked(runs, goal, locale);
            && ranked != [] && ranked[0].best.Some?
            && if goal.Lower? then ranked[0].best.value <= r.best.value else ranked[0].best.value >= r.best.value
  {
    var ranked := Ranked(runs, goal, locale);
    RankedHolds(runs, goal, locale, r);
    RankedHolds(runs, goal, locale, ranked[0]);
    RankedIsSorted(runs, goal, locale);
    ByValueIsPreorder(goal, locale);
    FirstIsLeast(ranked, ByValue(goal, locale), r);
  }

  // ------------------------------------------------------------ who comes before whom

  lemma ByUpdatedIsPreorder(locale: (string, string) -> int)
    requires Preorder(locale)
    ensures Preorder(ByUpdated(locale))
  {
    var cmp := ByUpdated(locale);
    forall a: Run, b: Run ensures cmp(a, b) <= 0 <==> cmp(b, a) >= 0 {
      assert locale(a.name, b.name) <= 0 <==> locale(b.name, a.name) >= 0;
    }
    forall a: Run, b: Run, c: Run | cmp(a, b) <= 0 && cmp(b, c) <= 0 ensures cmp(a, c) <= 0 {
      assert locale(a.name, b.name) <= 0 && locale(b.name, c.name) <= 0 ==> locale(a.name, c.name) <= 0;
    }
  }

  lemma {:induction false} TakeIsPrefix(picked: set<string>, list: seq<Run>, cap: int) returns (n: nat)
    ensures n <= |list| && Take(picked, list, cap) == picked + Names(list[..n])
    decreases |list|
  {
    if list == [] || |picked| >= cap {
      n := 0;
      assert picked + Names(list[..0]) == picked;
    } else {
      n := TakeIsPrefix(picked + {list[0].name}, list[1..], cap);
      NamesPrefix(list, n);
      n := n + 1;
    }
  }

  lemma NamesPrefix(list: seq<Run>, n: nat)
    requires n < |list|
    ensures forall picked :: picked + {list[0].name} + Names(list[1..][..n]) == picked + Names(list[..n + 1])
  {
    assert list[..n + 1] == [list[0]] + list[1..][..n];
    assert Names(list[..n + 1]) == {list[0].name} + Names(list[1..][..n]);
  }

  /** A filtered, sorted list of runs with names of their own. */
  lemma SortedList(list: seq<Run>, cmp: (Run, Run) -> int)
    requires UniqueNames(list) && Preorder(cmp)
    ensures UniqueNames(Sort(list, cmp)) && Sorted(Sort(list, cmp), cmp)
    ensures forall r :: r in Sort(list, cmp) <==> r in list
  {
    NamesCount(list);
    SortNames(list, cmp);
    CountedNames(Sort(list, cmp));
    SortSorts(list, cmp);
    forall r ensures r in Sort(list, cmp) <==> r in list { InMultiset(Sort(list, cmp), list, r); }
  }

  /** Of two runs of a sorted list, the one a prefix has is not after the one it has not. */
  lemma PrefixHasTheFirst(list: seq<Run>, cmp: (Run, Run) -> int, n: nat, a: Run, b: Run)
    requires UniqueNames(list) && Sorted(list, cmp) && n <= |list| && a in list && b in list
    requires a.name in Names(list[..n]) && b.name !in Names(list[..n])
    ensures cmp(a, b) <= 0
  {
    var i, j :| 0 <= i < |list| && 0 <= j < |list| && list[i] == a && list[j] == b;
    var k :| 0 <= k < n && list[k].name == a.name;
    assert k == i && list[..n][k] == list[k];
    forall q | 0 <= q < n ensures list[q].name in Names(list[..n]) { assert list[..n][q] == list[q]; }
  }

  lemma SelectedIsPicked(runs: seq<Run>, goal: Goal, limit: int, locale: (string, string) -> int, r: Run)
    requires r in runs
    ensures r.name in Selection(runs, goal, limit, locale) <==> r.name in Picked(runs, goal, limit, locale)
  {
    var picked := Picked(runs, goal, limit, locale);
    var kept := Filter(runs, Among(picked));
    FilterHolds(runs, Among(picked), r);
    if r.name in NamesOf(kept) {
      var i :| 0 <= i < |kept| && kept[i].name == r.name;
      FilterHolds(runs, Among(picked), kept[i]);
    }
    if i: nat :| i < |kept| && kept[i] == r { assert NamesOf(kept)[i] == r.name; }
  }

  lemma LongerPrefix(list: seq<Run>, m: nat, n: nat) returns (k: nat)
    requires m <= |list| && n <= |list|
    ensures k <= |list| && Names(list[..m]) + Names(list[..n]) == Names(list[..k])
  {
    k := if m < n then n else m;
    assert list[..m] <= list[..k] && list[..n] <= list[..k];
  }

  /** Without a goal the selection is a prefix of the running runs and a prefix of all. */
  lemma PickedWithoutGoal(runs: seq<Run>, limit: int, locale: (string, string) -> int) returns (m: nat, n: nat)
    ensures var running, all := Running(runs, locale), Sort(Active(runs), ByUpdated(locale));
            && m <= |running| && n <= |all|
            && Picked(runs, NoGoal, limit, locale) == Names(running[..m]) + Names(all[..n])
  {
    var running, all := Running(runs, locale), Sort(Active(runs), ByUpdated(locale));
    var first := First(running, [], limit);
    var m1 := TakeIsPrefix({}, running, limit);
    var p := Take(first, running, limit);
    var m2 := TakeIsPrefix(first, running, limit);
    m := LongerPrefix(running, m1, m2);
    n := TakeIsPrefix(p, all, Max(|p|, FALLBACK));
  }

  /** With names of their own, the run a list names is the run itself. */
  lemma PickedIn(runs: seq<Run>, list: seq<Run>, a: Run)
    requires UniqueNames(runs) && a in runs
    ensures (forall r <- list :: r in runs) && a.name in Names(list) ==> a in list
  {
    if (forall r <- list :: r in runs) && a.name in Names(list) {
      var r :| r in list && r.name == a.name;
      var i, j :| 0 <= i < |runs| && 0 <= j < |runs| && runs[i] == r && runs[j] == a;
    }
  }

  /** The lists the selection is made of hold what they should, each run once, and are sorted. */
  lemma RecentLists(runs: seq<Run>, locale: (string, string) -> int)
    requires UniqueNames(runs) && Preorder(locale)
    ensures var running := Running(runs, locale);
            && UniqueNames(running) && Sorted(running, ByUpdated(locale))
            && forall r :: r in running <==> r in runs && !r.archived && r.running
    ensures var all := Sort(Active(runs), ByUpdated(locale));
            && UniqueNames(all) && Sorted(all, ByUpdated(locale)) && forall r :: r in all <==> r in runs && !r.archived
  {
    ByUpdatedIsPreorder(locale);
    FilterIsUnique(runs, IsActive);
    FilterIsUnique(Active(runs), IsRunning);
    SortedList(Active(runs), ByUpdated(locale));
    SortedList(Filter(Active(runs), IsRunning), ByUpdated(locale));
    forall r: Run
      ensures r in Filter(Active(runs), IsRunning) <==> r in Active(runs) && r.running
      ensures r in Active(runs) <==> r in runs && !r.archived
    {
      FilterHolds(Active(runs), IsRunning, r);
      FilterHolds(runs, IsActive, r);
    }
  }

  lemma RankedList(runs: seq<Run>, goal: Goal, locale: (string, string) -> int)
    requires UniqueNames(runs) && Preorder(locale) && !goal.NoGoal?
    ensures var ranked := Ranked(runs, goal, locale);
            && UniqueNames(ranked) && Sorted(ranked, ByValue(goal, locale))
            && forall r :: r in ranked <==> r in runs && !r.archived && r.best.Some?
  {
    ByValueIsPreorder(goal, locale);
    FilterIsUnique(runs, IsActive);
    FilterIsUnique(Active(runs), HasValue);
    SortedList(Filter(Active(runs), HasValue), ByValue(goal, locale));
    forall r: Run ensures r in Ranked(runs, goal, locale) <==> r in runs && !r.archived && r.best.Some? {
      RankedHolds(runs, goal, locale, r);
    }
  }

  /**
    Without a goal metric the runs last heard from come first: a run is passed over only for runs
    heard from no earlier, or, if it is not running, for one that is.
  */
  lemma RecentRunsComeFirst(runs: seq<Run>, limit: int, locale: (string, string) -> int, a: Run, b: Run)
    requires UniqueNames(runs) && Preorder(locale) && a in runs && b in runs && !b.archived
    requires a.name in Selection(runs, NoGoal, limit, locale) && b.name !in Selection(runs, NoGoal, limit, locale)
    ensures a.updated >= b.updated || (a.running && !b.running)
  {
    var running, all := Running(runs, locale), Sort(Active(runs), ByUpdated(locale));
    SelectedIsPicked(runs, NoGoal, limit, locale, a);
    SelectedIsPicked(runs, NoGoal, limit, locale, b);
    var m, n := PickedWithoutGoal(runs, limit, locale);
    RecentLists(runs, locale);
    if a.name in Names(running[..m]) {
      PickedIn(runs, running[..m], a);
      if b.running { PrefixHasTheFirst(running, ByUpdated(locale), m, a, b); }
    } else {
      PickedIn(runs, all[..n], a);
      PrefixHasTheFirst(all, ByUpdated(locale), n, a, b);
    }
  }

  /** With a goal it is a prefix of the running runs and a prefix of the ranked ones. */
  lemma PickedWithGoal(runs: seq<Run>, goal: Goal, limit: int, locale: (string, string) -> int) returns (m: nat, n: nat)
    requires limit >= 1 && Ranked(runs, goal, locale) != []
    ensures var running, ranked := Running(runs, locale), Ranked(runs, goal, locale);
            && m <= |running| && n <= |ranked|
            && Picked(runs, goal, limit, locale) == Names(running[..m]) + Names(ranked[..n])
  {
    var running, ranked := Running(runs, locale), Ranked(runs, goal, locale);
    SomethingPicked(running, ranked, limit);
    var first := First(running, ranked, limit);
    var m1 := TakeIsPrefix({}, running, Min(RUNNING_FIRST, limit));
    n := TakeIsPrefix(first, ranked, limit);
    var m2 := TakeIsPrefix(Take(first, ranked, limit), running, limit);
    m := LongerPrefix(running, m1, m2);
    assert Names(running[..m1]) + Names(ranked[..n]) + Names(running[..m2])
        == Names(running[..m1]) + Names(running[..m2]) + Names(ranked[..n]);
  }

  /** Of two runs that are ranked and not running, the one selected without the other is in that prefix without it. */
  lemma RankedIsPicked(runs: seq<Run>, goal: Goal, limit: int, locale: (string, string) -> int, a: Run, b: Run)
    returns (n: nat)
    requires UniqueNames(runs) && Preorder(locale) && limit >= 1 && Ranked(runs, goal, locale) != []
    requires forall r <- Ranked(runs, goal, locale) :: r in runs
    requires a in runs && !a.running
    requires a.name in Picked(runs, goal, limit, locale) && b.name !in Picked(runs, goal, limit, locale)
    ensures var ranked := Ranked(runs, goal, locale);
            n <= |ranked| && a in ranked[..n] && b.name !in Names(ranked[..n])
  {
    var running, ranked := Running(runs, locale), Ranked(runs, goal, locale);
    var m;
    m, n := PickedWithGoal(runs, goal, limit, locale);
    RecentLists(runs, locale);
    if a.name in Names(running[..m]) { PickedIn(runs, running[..m], a); }
    PickedIn(runs, ranked[..n], a);
  }

  /**
    With one the better runs do: of two runs that have a value of the metric and are not running,
    one is selected without the other only if its value is no worse.
  */
  lemma BetterRunsComeFirst(runs: seq<Run>, goal: Goal, limit: int, locale: (string, string) -> int, a: Run, b: Run)
    requires UniqueNames(runs) && Preorder(locale) && !goal.NoGoal? && limit >= 1
    requires a in runs && b in runs && !a.running && a.best.Some? && b.best.Some? && !b.archived
    requires a.name in Selection(runs, goal, limit, locale) && b.name !in Selection(runs, goal, limit, locale)
    ensures if goal.Lower? then a.best.value <= b.best.value else a.best.value >= b.best.value
  {
    var ranked := Ranked(runs, goal, locale);
    SelectedIsPicked(runs, goal, limit, locale, a);
    SelectedIsPicked(runs, goal, limit, locale, b);
    RankedList(runs, goal, locale);
    var n := RankedIsPicked(runs, goal, limit, locale, a, b);
    PrefixHasTheFirst(ranked, ByValue(goal, locale), n, a, b);
  }
}
