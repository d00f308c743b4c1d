/** The operator's cross-check of index, git and storage: exact diffing, and an exact account of what a run leaves. */
module Resync {
  import opened Options

  /** An indexed file: its path, its blob, and its LFS object if it is a pointer. */
  datatype File = File(path: string, sha: string, oid: Option<string>)

  datatype Content = Content(sha: string, oid: Option<string>)

  function ContentOf(f: File): Content { Content(f.sha, f.oid) }

  predicate SameContent(a: File, b: File) {
    && a.sha == b.sha
    && match (a.oid, b.oid)
       case (None, None) => true
       case (Some(x), Some(y)) => x == y
       case _ => false
  }

  // ------------------------------------------------------------------ the diff

  function ByPath(files: seq<File>): map<string, File> {
    if files == [] then map[] else ByPath(files[..|files| - 1])[files[|files| - 1].path := files[|files| - 1]]
  }

  /** What a listing says each path holds. */
  function Contents(files: seq<File>): map<string, Content> {
    var m := ByPath(files);
    map p | p in m :: ContentOf(m[p])
  }

  datatype Diff = Diff(missing: seq<string>, extra: seq<string>, changed: seq<string>)

  function Total(d: Diff): nat { |d.missing| + |d.extra| + |d.changed| }

  function MissingIn(tree: seq<File>, index: map<string, File>): seq<string> {
    if tree == [] then []
    else
      var f := tree[|tree| - 1];
      MissingIn(tree[..|tree| - 1], index) + if f.path !in index then [f.path] else []
  }

  function ChangedIn(tree: seq<File>, index: map<string, File>): seq<string> {
    if tree == [] then []
    else
      var f := tree[|tree| - 1];
      ChangedIn(tree[..|tree| - 1], index) + if f.path in index && !SameContent(f, index[f.path]) then [f.path] else []
  }

  function ExtraIn(indexed: seq<File>, seen: set<string>): seq<string> {
    if indexed == [] then []
    else
      var f := indexed[|indexed| - 1];
      ExtraIn(indexed[..|indexed| - 1], seen) + if f.path !in seen then [f.path] else []
  }

  function Paths(files: seq<File>): set<string> {
    set f <- files :: f.path
  }

  function DiffOf(tree: seq<File>, indexed: seq<File>): Diff {
    Diff(MissingIn(tree, ByPath(indexed)), ExtraIn(indexed, Paths(tree)), ChangedIn(tree, ByPath(indexed)))
  }

  method DiffIndex(tree: seq<File>, indexed: seq<File>) returns (diff: Diff)
    ensures diff == DiffOf(tree, indexed)
  {
    var byPath: map<string, File> := map[];
    for i := 0 to |indexed|
      invariant byPath == ByPath(indexed[..i])
    {
      assert indexed[..i + 1][..i] == indexed[..i];
      byPath := byPath[indexed[i].path := indexed[i]];
    }
    assert indexed[..|indexed|] == indexed && tree[..|tree|] == tree;
    var missing: seq<string>, changed: seq<string>, seen: set<string> := [], [], {};
    for i := 0 to |tree|
      invariant seen == Paths(tree[..i])
      invariant missing == MissingIn(tree[..i], byPath) && changed == ChangedIn(tree[..i], byPath)
    {
      var f := tree[i];
      assert tree[..i + 1][..i] == tree[..i];
      seen := seen + {f.path};
      if f.path !in byPath {
        missing := missing + [f.path];
      } else if !SameContent(f, byPath[f.path]) {
        changed := changed + [f.path];
      }
    }
    var extra: seq<string> := [];
    for i := 0 to |indexed|
      invariant extra == ExtraIn(indexed[..i], seen)
    {
      assert indexed[..i + 1][..i] == indexed[..i];
      if indexed[i].path !in seen { extra := extra + [indexed[i].path]; }
    }
    return Diff(missing, extra, changed);
  }

  lemma {:induction false} ByPathHolds(files: seq<File>, p: string)
    ensures p in ByPath(files) <==> p in Paths(files)
    ensures p in ByPath(files) ==> ByPath(files)[p] in files && ByPath(files)[p].path == p
  {
    if files != [] {
      var init, f := files[..|files| - 1], files[|files| - 1];
      ByPathHolds(init, p);
      assert files == init + [f];
    }
  }

  lemma {:induction false} MissingHolds(tree: seq<File>, index: map<string, File>, p: string)
    ensures p in MissingIn(tree, index) <==> p in Paths(tree) && p !in index
  {
    if tree != [] {
      MissingHolds(tree[..|tree| - 1], index, p);
      assert tree == tree[..|tree| - 1] + [tree[|tree| - 1]];
    }
  }

  lemma {:induction false} ChangedHolds(tree: seq<File>, index: map<string, File>, p: string)
    ensures p in ChangedIn(tree, index) <==>
            exists f :: f in tree && f.path == p && p in index && ContentOf(f) != ContentOf(index[p])
  {
    if tree != [] {
      ChangedHolds(tree[..|tree| - 1], index, p);
      assert tree == tree[..|tree| - 1] + [tree[|tree| - 1]];
    }
  }

  lemma {:induction false} ExtraHolds(indexed: seq<File>, seen: set<string>, p: string)
    ensures p in ExtraIn(indexed, seen) <==> p in Paths(indexed) && p !in seen
  {
    if indexed != [] {
      ExtraHolds(indexed[..|indexed| - 1], seen, p);
      assert indexed == indexed[..|indexed| - 1] + [indexed[|indexed| - 1]];
    }
  }

  /** What the diff says of one path, whatever the listings. */
  lemma DiffHolds(tree: seq<File>, indexed: seq<File>, p: string)
    ensures var d, t, i := DiffOf(tree, indexed), Contents(tree), Contents(indexed);
            && (p in d.missing <==> p in t && p !in i)
            && (p in d.extra <==> p in i && p !in t)
            && (p in d.changed ==> p in t && p in i)
            && (p in t && p in i && p !in d.changed ==> t[p] == i[p])
  {
    ByPathHolds(tree, p);
    ByPathHolds(indexed, p);
    MissingHolds(tree, ByPath(indexed), p);
    ChangedHolds(tree, ByPath(indexed), p);
    ExtraHolds(indexed, Paths(tree), p);
  }

  /** The index with a diff applied: extra paths dropped, missing and changed ones taken from the tree. */
  function Patched(index: map<string, Content>, d: Diff, tree: map<string, Content>): map<string, Content> {
    map p | p in index.Keys + tree.Keys && p !in d.extra && (p in d.missing || p in d.changed ==> p in tree)
            && (p in index || p in d.missing || p in d.changed)
      :: if p in d.missing || p in d.changed then tree[p] else index[p]
  }

  /** Nothing is left out of a diff: applied to the index, it gives the tree. */
  lemma DiffRepairsTheIndex(tree: seq<File>, indexed: seq<File>)
    ensures Patched(Contents(indexed), DiffOf(tree, indexed), Contents(tree)) == Contents(tree)
  {
    var d, t, i := DiffOf(tree, indexed), Contents(tree), Contents(indexed);
    var r := Patched(i, d, t);
    forall p ensures p in r <==> p in t
      ensures p in r && p in t ==> r[p] == t[p]
    {
      DiffHolds(tree, indexed, p);
    }
  }

  /** No path is listed twice. */
  ghost predicate Unique(files: seq<File>) {
    forall i, j :: 0 <= i < j < |files| ==> files[i].path != files[j].path
  }

  lemma UniqueContent(files: seq<File>, f: File)
    requires Unique(files) && f in files
    ensures f.path in Contents(files) && Contents(files)[f.path] == ContentOf(f)
  {
    ByPathHolds(files, f.path);
  }

  /** A path is where tree and index differ. */
  predicate Differs(t: map<string, Content>, i: map<string, Content>, p: string) {
    (p in t) != (p in i) || (p in t && t[p] != i[p])
  }

  /** In a tree, where paths are unique, the diff names the paths that differ and no other. */
  lemma DiffNamesWhatDiffers(tree: seq<File>, indexed: seq<File>, p: string)
    requires Unique(tree)
    ensures var d := DiffOf(tree, indexed);
            (p in d.missing || p in d.extra || p in d.changed) <==> Differs(Contents(tree), Contents(indexed), p)
  {
    var d := DiffOf(tree, indexed);
    DiffHolds(tree, indexed, p);
    if p in d.changed {
      ByPathHolds(indexed, p);
      ChangedHolds(tree, ByPath(indexed), p);
      var f :| f in tree && f.path == p && ContentOf(f) != ContentOf(ByPath(indexed)[p]);
      UniqueContent(tree, f);
    }
  }

  /** A ref is reported stale exactly when its index does not describe its tree. */
  lemma NothingToReportExactlyWhenEqual(tree: seq<File>, indexed: seq<File>)
    requires Unique(tree)
    ensures Total(DiffOf(tree, indexed)) == 0 <==> Contents(tree) == Contents(indexed)
  {
    var d, t, i := DiffOf(tree, indexed), Contents(tree), Contents(indexed);
    if Total(d) == 0 {
      forall p ensures (p in t <==> p in i) && (p in t ==> t[p] == i[p]) { DiffNamesWhatDiffers(tree, indexed, p); }
      assert t.Keys == i.Keys;
    }
    if t == i && Total(d) != 0 {
      var p := if d.missing != [] then d.missing[0] else if d.extra != [] then d.extra[0] else d.changed[0];
      DiffNamesWhatDiffers(tree, indexed, p);
    }
  }

  // --------------------------------------------------------------- the run

  /**
    What a run is given: the listings it starts from, and which repairs will not work. A blob is
    published out of the git repository of the ref at hand, so another ref may succeed with it.
  */
  datatype Setup = Setup(execute: bool, lfs: set<string>, unpublishable: set<(string, string)>,
                         unqueueable: set<string>)

  /** The run's tally. */
  datatype Stats = Stats(blobs: Tally, missingLfs: nat, refs: Tally, repairFailures: nat)

  /** How many were found missing or stale, and how many of them were published or queued again. */
  datatype Tally = Tally(found: nat, repaired: nat)

  function Found(t: Tally): Tally { t.(found := t.found + 1) }

  function Repaired(t: Tally): Tally { t.(repaired := t.repaired + 1) }

  /** What a run found: a file whose LFS object or blob is gone, a ref whose index is stale. */
  datatype Finding = LostLfs(oid: string) | LostBlob(sha: string, repaired: bool) | Stale(ref: string, repaired: bool)

  /** The findings reported, in order. */
  datatype Log = NoFinding | Then(before: Log, last: Finding)

  /** The bucket's blobs, the jobs queued, the tally, and the findings reported. */
  datatype State = State(blobs: set<string>, jobs: set<string>, stats: Stats, log: Log)

  const NOTHING: Stats := Stats(Tally(0, 0), 0, Tally(0, 0), 0)

  /** unrepaired() */
  function Unrepaired(s: Stats): int {
    (s.blobs.found - s.blobs.repaired) + s.missingLfs + (s.refs.found - s.refs.repaired)
  }

  datatype Lost = Lost(id: string, lfs: bool)

  /** missingObjects: the indexed files whose object is not there. */
  function MissingObjects(files: seq<File>, blobs: set<string>, lfs: set<string>): seq<Lost> {
    if files == [] then []
    else
      var f := files[|files| - 1];
      MissingObjects(files[..|files| - 1], blobs, lfs)
      + if f.oid.Some? then if f.oid.value !in lfs then [Lost(f.oid.value, true)] else []
        else if f.sha !in blobs then [Lost(f.sha, false)] else []
  }

  /** One missing object: reported, and a blob published again if it can be. */
  function Report(c: Setup, s: State, ref: string, m: Lost): State {
    if m.lfs then s.(stats := s.stats.(missingLfs := s.stats.missingLfs + 1), log := Then(s.log, LostLfs(m.id)))
    else
      var ok := c.execute && (ref, m.id) !in c.unpublishable;
      var counted := s.stats.(blobs := Found(s.stats.blobs));
      s.(blobs := if ok then s.blobs + {m.id} else s.blobs,
         stats := if ok then counted.(blobs := Repaired(counted.blobs))
                  else if c.execute then counted.(repairFailures := counted.repairFailures + 1) else counted,
         log := Then(s.log, LostBlob(m.id, ok)))
  }

  function ReportAll(c: Setup, s: State, ref: string, ms: seq<Lost>): State {
    if ms == [] then s else Report(c, ReportAll(c, s, ref, ms[..|ms| - 1]), ref, ms[|ms| - 1])
  }

  /** checkIndex: a drifted index is reported, and a sync job queued if it can be. */
  function ReportIndex(c: Setup, s: State, ref: string, diff: Diff): State {
    if Total(diff) == 0 then s
    else
      var ok := c.execute && ref !in c.unqueueable;
      var counted := s.stats.(refs := Found(s.stats.refs));
      s.(jobs := if ok then s.jobs + {ref} else s.jobs,
         stats := if ok then counted.(refs := Repaired(counted.refs))
                  else if c.execute then counted.(repairFailures := counted.repairFailures + 1) else counted,
         log := Then(s.log, Stale(ref, ok)))
  }

  /** What reading a ref gives: nothing on it yet, an error, or its tree and its index rows. */
  datatype Ref = Empty | Unreadable | Ref(name: string, tree: seq<File>, indexed: seq<File>)

  function CheckRef(c: Setup, s: State, r: Ref): State {
    if !r.Ref? then s
    else
      var reported := ReportAll(c, s, r.name, MissingObjects(r.indexed, s.blobs, c.lfs));
      ReportIndex(c, reported, r.name, DiffOf(r.tree, r.indexed))
  }

  function CheckRefs(c: Setup, s: State, refs: seq<Ref>): State {
    if refs == [] then s else CheckRef(c, CheckRefs(c, s, refs[..|refs| - 1]), refs[|refs| - 1])
  }

  /** How a run ends: some check could not be made, some repair failed, some findings are left, or all is well. */
  datatype Verdict = ChecksFailed | RepairsFailed(n: nat) | Left(n: nat) | Agree

  function VerdictOf(s: State, unread: bool): Verdict {
    if unread then ChecksFailed
    else if s.stats.repairFailures > 0 then RepairsFailed(s.stats.repairFailures)
    else if Unrepaired(s.stats) > 0 then Left(Unrepaired(s.stats))
    else Agree
  }

  class ResyncRun {
    const setup: Setup
    var blobs: set<string>     // stored.blobs, and the bucket it was listed from
    var jobs: set<string>
    var stats: Stats
    ghost var log: Log

    ghost function Now(): State reads this {
      State(blobs, jobs, stats, log)
    }

    constructor (setup: Setup, blobs: set<string>)
      ensures this.setup == setup && Starts(setup, Now(), blobs)
    {
      this.setup, this.blobs := setup, blobs;
      jobs, stats, log := {}, NOTHING, NoFinding;
    }

    method PublishBlob(ref: string, sha: string) returns (ok: bool)
      modifies this`blobs
      ensures ok == ((ref, sha) !in setup.unpublishable) && blobs == if ok then old(blobs) + {sha} else old(blobs)
    {
      ok := (ref, sha) !in setup.unpublishable;
      if ok { blobs := blobs + {sha}; }
    }

    method EnqueueSync(ref: string) returns (ok: bool)
      modifies this`jobs
      ensures ok == (ref !in setup.unqueueable) && jobs == if ok then old(jobs) + {ref} else old(jobs)
    {
      ok := ref !in setup.unqueueable;
      if ok { jobs := jobs + {ref}; }
    }

    method ListMissing(files: seq<File>) returns (out: seq<Lost>)
      ensures out == MissingObjects(files, blobs, setup.lfs)
    {
      out := [];
      for i := 0 to |files|
        invariant out == MissingObjects(files[..i], blobs, setup.lfs)
      {
        assert files[..i + 1][..i] == files[..i];
        var f := files[i];
        if f.oid.Some? {
          if f.oid.value !in setup.lfs { out := out + [Lost(f.oid.value, true)]; }
          continue;
        }
        if f.sha !in blobs { out := out + [Lost(f.sha, false)]; }
      }
      assert files[..|files|] == files;
    }

    method CheckObject(ref: string, m: Lost)
      modifies this
      ensures Now() == Report(setup, old(Now()), ref, m)
    {
      if m.lfs {
        stats, log := stats.(missingLfs := stats.missingLfs + 1), Then(log, LostLfs(m.id));
        return;
      }
      stats := stats.(blobs := Found(stats.blobs));
      if !setup.execute {
        log := Then(log, LostBlob(m.id, false));
        return;
      }
      var ok := PublishBlob(ref, m.id);
      log := Then(log, LostBlob(m.id, ok));
      if !ok {
        stats := stats.(repairFailures := stats.repairFailures + 1);
        return;
      }
      stats := stats.(blobs := Repaired(stats.blobs));
    }

    method CheckObjects(ref: string, indexed: seq<File>)
      modifies this
      ensures Now() == ReportAll(setup, old(Now()), ref, MissingObjects(indexed, old(blobs), setup.lfs))
    {
      var ms := ListMissing(indexed);
      ghost var before := Now();
      for i := 0 to |ms|
        invariant Now() == ReportAll(setup, before, ref, ms[..i])
      {
        assert ms[..i + 1][..i] == ms[..i];
        CheckObject(ref, ms[i]);
      }
      assert ms[..|ms|] == ms;
    }

    method CheckIndex(ref: string, diff: Diff)
      modifies this
      ensures Now() == ReportIndex(setup, old(Now()), ref, diff)
    {
      if Total(diff) == 0 { return; }
      stats := stats.(refs := Found(stats.refs));
      if !setup.execute {
        log := Then(log, Stale(ref, false));
        return;
      }
      var ok := EnqueueSync(ref);
      log := Then(log, Stale(ref, ok));
      if !ok {
        stats := stats.(repairFailures := stats.repairFailures + 1);
        return;
      }
      stats := stats.(refs := Repaired(stats.refs));
    }

    method Check(r: Ref) returns (ok: bool)
      modifies this
      ensures Now() == CheckRef(setup, old(Now()), r) && ok == !r.Unreadable?
    {
      if r.Empty? { return true; }
      if r.Unreadable? { return false; }
      CheckObjects(r.name, r.indexed);
      var diff := DiffIndex(r.tree, r.indexed);
      CheckIndex(r.name, diff);
      return true;
    }

    method Run(refs: seq<Ref>) returns (verdict: Verdict)
      modifies this
      ensures Now() == CheckRefs(setup, old(Now()), refs)
      ensures verdict == VerdictOf(Now(), exists r <- refs :: r.Unreadable?)
    {
      ghost var before := Now();
      var unread := false;
      for i := 0 to |refs|
        invariant Now() == CheckRefs(setup, before, refs[..i])
        invariant unread == exists r <- refs[..i] :: r.Unreadable?
      {
        assert refs[..i + 1][..i] == refs[..i] && refs[..i + 1] == refs[..i] + [refs[i]];
        var ok := Check(refs[i]);
        unread := unread || !ok;
      }
      assert refs[..|refs|] == refs;
      if unread { return ChecksFailed; }
      if stats.repairFailures > 0 { return RepairsFailed(stats.repairFailures); }
      var n := (stats.blobs.found - stats.blobs.repaired) + stats.missingLfs + (stats.refs.found - stats.refs.repaired);
      if n > 0 { return Left(n); }
      return Agree;
    }
  }

  // ------------------------------------------------------------ the account

  predicate Open(f: Finding) {
    f.LostLfs? || !f.repaired
  }

  function CountOpen(log: Log): nat {
    if log.NoFinding? then 0 else CountOpen(log.before) + if Open(log.last) then 1 else 0
  }

  function CountLfs(log: Log): nat {
    if log.NoFinding? then 0 else CountLfs(log.before) + if log.last.LostLfs? then 1 else 0
  }

  /** The tally tells the findings that are still open, and how many repairs were tried in vain. */
  predicate Accounted(c: Setup, s: State) {
    && s.stats.blobs.found + s.stats.missingLfs + s.stats.refs.found
       == CountOpen(s.log) + s.stats.blobs.repaired + s.stats.refs.repaired
    && s.stats.missingLfs == CountLfs(s.log)
    && (c.execute ==> s.stats.repairFailures + CountLfs(s.log) == CountOpen(s.log))
    && (!c.execute ==> s.stats.repairFailures == 0)
  }

  lemma {:induction false} ReportAllAccounts(c: Setup, s: State, ref: string, ms: seq<Lost>)
    requires Accounted(c, s)
    ensures Accounted(c, ReportAll(c, s, ref, ms))
  {
    if ms != [] {
      ReportAllAccounts(c, s, ref, ms[..|ms| - 1]);
    }
  }

  lemma CheckRefAccounts(c: Setup, s: State, r: Ref)
    requires Accounted(c, s)
    ensures Accounted(c, CheckRef(c, s, r))
  {
    if r.Ref? {
      ReportAllAccounts(c, s, r.name, MissingObjects(r.indexed, s.blobs, c.lfs));
    }
  }

  /**
    Over any run: unrepaired() is the number of findings left open, never negative, and failures are
    the failed repairs.
  */
  lemma {:induction false} RunIsAccounted(c: Setup, s: State, refs: seq<Ref>)
    requires Accounted(c, s)
    ensures Accounted(c, CheckRefs(c, s, refs))
    ensures Unrepaired(CheckRefs(c, s, refs).stats) == CountOpen(CheckRefs(c, s, refs).log)
  {
    if refs != [] {
      var before, r := CheckRefs(c, s, refs[..|refs| - 1]), refs[|refs| - 1];
      RunIsAccounted(c, s, refs[..|refs| - 1]);
      CheckRefAccounts(c, before, r);
      assert CheckRefs(c, s, refs) == CheckRef(c, before, r);
    }
  }

  /** A run begins with what it listed, nothing done and no finding open. */
  predicate Starts(c: Setup, s: State, blobs: set<string>) {
    s.blobs == blobs && s.jobs == {} && s.stats == NOTHING && Accounted(c, s)
  }

  // ------------------------------------------------------- what a run achieves

  lemma {:induction false} MissingObjectsHolds(files: seq<File>, blobs: set<string>, lfs: set<string>, f: File)
    requires f in files
    ensures f.oid.None? && f.sha !in blobs ==> Lost(f.sha, false) in MissingObjects(files, blobs, lfs)
    ensures f.oid.Some? && f.oid.value !in lfs ==> Lost(f.oid.value, true) in MissingObjects(files, blobs, lfs)
  {
    var init, last := files[..|files| - 1], files[|files| - 1];
    if f != last {
      assert files == init + [last];
      MissingObjectsHolds(init, blobs, lfs, f);
    }
  }

  lemma {:induction false} NothingMissing(files: seq<File>, blobs: set<string>, lfs: set<string>)
    requires forall f <- files :: if f.oid.Some? then f.oid.value in lfs else f.sha in blobs
    ensures MissingObjects(files, blobs, lfs) == []
  {
    if files != [] {
      assert files == files[..|files| - 1] + [files[|files| - 1]];
      NothingMissing(files[..|files| - 1], blobs, lfs);
    }
  }

  /** Every object the files need is there. */
  predicate AllThere(files: seq<File>, blobs: set<string>, lfs: set<string>) {
    forall f <- files :: if f.oid.Some? then f.oid.value in lfs else f.sha in blobs
  }

  lemma NoneMissingExactlyWhenAllThere(files: seq<File>, blobs: set<string>, lfs: set<string>)
    ensures MissingObjects(files, blobs, lfs) == [] <==> AllThere(files, blobs, lfs)
  {
    if AllThere(files, blobs, lfs) { NothingMissing(files, blobs, lfs); }
    forall f | f in files ensures MissingObjects(files, blobs, lfs) == [] ==>
          if f.oid.Some? then f.oid.value in lfs else f.sha in blobs {
      MissingObjectsHolds(files, blobs, lfs, f);
    }
  }

  lemma {:induction false} DryReports(c: Setup, s: State, ref: string, ms: seq<Lost>)
    requires !c.execute
    ensures var after := ReportAll(c, s, ref, ms);
            after.blobs == s.blobs && after.jobs == s.jobs && CountOpen(after.log) == CountOpen(s.log) + |ms|
  {
    if ms != [] {
      DryReports(c, s, ref, ms[..|ms| - 1]);
    }
  }

  /** The ref's index, tree and objects agree. */
  predicate Sound(r: Ref, blobs: set<string>, lfs: set<string>) {
    r.Ref? ==> AllThere(r.indexed, blobs, lfs) && Total(DiffOf(r.tree, r.indexed)) == 0
  }

  /** The same, said of contents. */
  predicate Agrees(r: Ref, blobs: set<string>, lfs: set<string>) {
    r.Ref? ==> AllThere(r.indexed, blobs, lfs) && Contents(r.tree) == Contents(r.indexed)
  }

  lemma DryRef(c: Setup, s: State, r: Ref)
    requires !c.execute
    ensures var after := CheckRef(c, s, r);
            && after.blobs == s.blobs && after.jobs == s.jobs && CountOpen(after.log) >= CountOpen(s.log)
            && (CountOpen(after.log) == CountOpen(s.log) <==> Sound(r, s.blobs, c.lfs))
  {
    if r.Ref? {
      var ms := MissingObjects(r.indexed, s.blobs, c.lfs);
      NoneMissingExactlyWhenAllThere(r.indexed, s.blobs, c.lfs);
      DryReports(c, s, r.name, ms);
    }
  }

  /** A dry run changes nothing, and has nothing to report exactly when every ref it read is sound. */
  lemma {:induction false} DryRunReportsExactlyWhatIsWrong(c: Setup, s: State, blobs: set<string>, refs: seq<Ref>)
    requires Starts(c, s, blobs)
    requires !c.execute
    ensures var end := CheckRefs(c, s, refs);
            && end.blobs == blobs && end.jobs == {}
            && (CountOpen(end.log) == 0 <==> forall r <- refs :: Sound(r, blobs, c.lfs))
  {
    if refs != [] {
      var init, r := refs[..|refs| - 1], refs[|refs| - 1];
      DryRunReportsExactlyWhatIsWrong(c, s, blobs, init);
      DryRef(c, CheckRefs(c, s, init), r);
      assert refs == init + [r];
    }
  }

  lemma DryVerdict(c: Setup, s: State, unread: bool)
    requires !c.execute && Accounted(c, s) && Unrepaired(s.stats) == CountOpen(s.log)
    ensures VerdictOf(s, unread) == Agree <==> !unread && CountOpen(s.log) == 0
  {
  }

  lemma SoundIsAgreeing(c: Setup, blobs: set<string>, refs: seq<Ref>)
    requires forall r <- refs :: r.Ref? ==> Unique(r.tree)
    ensures forall r <- refs :: Sound(r, blobs, c.lfs) <==> Agrees(r, blobs, c.lfs)
  {
    forall r | r in refs ensures Sound(r, blobs, c.lfs) <==> Agrees(r, blobs, c.lfs) {
      if r.Ref? { NothingToReportExactlyWhenEqual(r.tree, r.indexed); }
    }
  }

  /**
    A dry run ends well exactly when every ref could be read, every indexed file has its object,
    and every index holds what its tree holds.
  */
  lemma DryVerdictIsAgreeExactlyWhenAllAgrees(c: Setup, s: State, blobs: set<string>, refs: seq<Ref>)
    requires Starts(c, s, blobs)
    requires !c.execute && forall r <- refs :: r.Ref? ==> Unique(r.tree)
    ensures VerdictOf(CheckRefs(c, s, refs), exists r <- refs :: r.Unreadable?) == Agree
            <==> (forall r <- refs :: !r.Unreadable? && Agrees(r, blobs, c.lfs))
  {
    RunIsAccounted(c, s, refs);
    DryRunReportsExactlyWhatIsWrong(c, s, blobs, refs);
    DryVerdict(c, CheckRefs(c, s, refs), exists r <- refs :: r.Unreadable?);
    SoundIsAgreeing(c, blobs, refs);
  }

  // ------------------------------------------------------------ with --yes

  lemma {:induction false} ReportAllStores(c: Setup, s: State, ref: string, ms: seq<Lost>)
    requires c.execute
    ensures var after := ReportAll(c, s, ref, ms);
            && s.blobs <= after.blobs && s.jobs <= after.jobs && after.stats.repairFailures >= s.stats.repairFailures
            && (after.stats.repairFailures == s.stats.repairFailures ==>
                   forall m <- ms :: !m.lfs ==> m.id in after.blobs)
  {
    if ms != [] {
      ReportAllStores(c, s, ref, ms[..|ms| - 1]);
      assert ms == ms[..|ms| - 1] + [ms[|ms| - 1]];
    }
  }

  /** A ref the run has dealt with: its blobs are stored, and its sync is queued if its index has drifted. */
  predicate Settled(r: Ref, s: State) {
    r.Ref? ==>
      && (forall f <- r.indexed :: f.oid.None? ==> f.sha in s.blobs)
      && (Total(DiffOf(r.tree, r.indexed)) != 0 ==> r.name in s.jobs)
  }

  lemma RefSettles(c: Setup, s: State, r: Ref)
    requires c.execute
    ensures var after := CheckRef(c, s, r);
            && s.blobs <= after.blobs && s.jobs <= after.jobs && after.stats.repairFailures >= s.stats.repairFailures
            && (after.stats.repairFailures == s.stats.repairFailures ==> Settled(r, after))
  {
    if r.Ref? {
      ReportAllStores(c, s, r.name, MissingObjects(r.indexed, s.blobs, c.lfs));
      forall f | f in r.indexed ensures f.oid.None? && f.sha !in s.blobs ==>
          Lost(f.sha, false) in MissingObjects(r.indexed, s.blobs, c.lfs) {
        MissingObjectsHolds(r.indexed, s.blobs, c.lfs, f);
      }
    }
  }

  /**
    After a --yes run without a failed repair, every indexed blob of every ref it read is stored,
    and every drifted index is queued.
  */
  lemma {:induction false} RepairedRunSettlesEveryRef(c: Setup, s: State, blobs: set<string>, refs: seq<Ref>)
    requires Starts(c, s, blobs)
    requires c.execute
    ensures var end := CheckRefs(c, s, refs);
            end.stats.repairFailures == 0 ==> forall r <- refs :: Settled(r, end)
  {
    if refs != [] {
      var init, r := refs[..|refs| - 1], refs[|refs| - 1];
      RepairedRunSettlesEveryRef(c, s, blobs, init);
      RefSettles(c, CheckRefs(c, s, init), r);
      assert refs == init + [r];
    }
  }

  predicate LfsThere(files: seq<File>, lfs: set<string>) {
    forall f <- files :: f.oid.Some? ==> f.oid.value in lfs
  }

  lemma {:induction false} NoLfsMissing(files: seq<File>, blobs: set<string>, lfs: set<string>)
    ensures (forall m <- MissingObjects(files, blobs, lfs) :: !m.lfs) <==> LfsThere(files, lfs)
  {
    if files != [] {
      NoLfsMissing(files[..|files| - 1], blobs, lfs);
      assert files == files[..|files| - 1] + [files[|files| - 1]];
    }
  }

  lemma {:induction false} ReportsLfs(c: Setup, s: State, ref: string, ms: seq<Lost>)
    ensures var after := ReportAll(c, s, ref, ms);
            && after.stats.missingLfs >= s.stats.missingLfs
            && (after.stats.missingLfs == s.stats.missingLfs <==> forall m <- ms :: !m.lfs)
  {
    if ms != [] {
      ReportsLfs(c, s, ref, ms[..|ms| - 1]);
      assert ms == ms[..|ms| - 1] + [ms[|ms| - 1]];
    }
  }

  lemma {:induction false} RunReportsLfs(c: Setup, s: State, blobs: set<string>, refs: seq<Ref>)
    requires Starts(c, s, blobs)
    ensures CheckRefs(c, s, refs).stats.missingLfs == 0 <==> forall r <- refs :: r.Ref? ==> LfsThere(r.indexed, c.lfs)
  {
    if refs != [] {
      var init, r := refs[..|refs| - 1], refs[|refs| - 1];
      var before := CheckRefs(c, s, init);
      RunReportsLfs(c, s, blobs, init);
      assert refs == init + [r];
      if r.Ref? {
        ReportsLfs(c, before, r.name, MissingObjects(r.indexed, before.blobs, c.lfs));
        NoLfsMissing(r.indexed, before.blobs, c.lfs);
      }
    }
  }

  // What a failed repair comes from.

  /** The plain files' blobs. */
  function Shas(files: seq<File>): set<string> {
    set f <- files | f.oid.None? :: f.sha
  }

  /** The blobs a ref's index names. */
  function Carried(r: Ref): set<string> {
    if r.Ref? then Shas(r.indexed) else {}
  }

  function CarriedBy(refs: seq<Ref>): set<string> {
    set r <- refs, x <- Carried(r) :: x
  }

  /**
    What the run will need of ref i can be repaired: the blobs that were missing at the start
    and that no earlier ref carries, out of its own repository, and its sync if it has drifted.
  */
  predicate Repairable(c: Setup, blobs: set<string>, refs: seq<Ref>, i: nat)
    requires i < |refs|
  {
    refs[i].Ref? ==>
      && (forall x <- Carried(refs[i]) - blobs - CarriedBy(refs[..i]) :: (refs[i].name, x) !in c.unpublishable)
      && (Total(DiffOf(refs[i].tree, refs[i].indexed)) != 0 ==> refs[i].name !in c.unqueueable)
  }

  /** The blobs on a list of missing objects. */
  function LostShas(ms: seq<Lost>): set<string> {
    set m <- ms | !m.lfs :: m.id
  }

  lemma LostShasAppend(a: seq<Lost>, b: seq<Lost>)
    ensures LostShas(a + b) == LostShas(a) + LostShas(b)
  {
  }

  lemma ShasSnoc(files: seq<File>, f: File)
    ensures Shas(files + [f]) == Shas(files) + if f.oid.None? then {f.sha} else {}
  {
  }

  /** The missing blobs are those the files name and the bucket lacks. */
  lemma {:induction false} MissingAre(files: seq<File>, blobs: set<string>, lfs: set<string>)
    ensures LostShas(MissingObjects(files, blobs, lfs)) == Shas(files) - blobs
  {
    if files == [] {
      assert MissingObjects(files, blobs, lfs) == [];
    } else {
      var init, f := files[..|files| - 1], files[|files| - 1];
      var last := if f.oid.Some? then if f.oid.value !in lfs then [Lost(f.oid.value, true)] else []
                  else if f.sha !in blobs then [Lost(f.sha, false)] else [];
      MissingAre(init, blobs, lfs);
      LostShasAppend(MissingObjects(init, blobs, lfs), last);
      ShasSnoc(init, f);
      assert init + [f] == files;
    }
  }

  /** No blob of the list fails to be published out of this ref's repository. */
  predicate Publishes(c: Setup, ref: string, shas: set<string>) {
    forall x <- shas :: (ref, x) !in c.unpublishable
  }

  lemma ReportFails(c: Setup, s: State, ref: string, m: Lost)
    requires c.execute
    ensures var after := Report(c, s, ref, m);
            && s.stats.repairFailures <= after.stats.repairFailures
            && (after.stats.repairFailures == s.stats.repairFailures <==> Publishes(c, ref, LostShas([m])))
            && (Publishes(c, ref, LostShas([m])) ==> after.blobs == s.blobs + LostShas([m]))
  {
    assert LostShas([m]) == if m.lfs then {} else {m.id};
  }

  lemma {:induction false} ReportsFailures(c: Setup, s: State, ref: string, ms: seq<Lost>)
    requires c.execute
    ensures var after := ReportAll(c, s, ref, ms);
            && s.stats.repairFailures <= after.stats.repairFailures
            && (after.stats.repairFailures == s.stats.repairFailures <==> Publishes(c, ref, LostShas(ms)))
            && (Publishes(c, ref, LostShas(ms)) ==> after.blobs == s.blobs + LostShas(ms))
  {
    if ms == [] {
      assert LostShas(ms) == {};
    } else {
      var init, m := ms[..|ms| - 1], ms[|ms| - 1];
      ReportsFailures(c, s, ref, init);
      ReportFails(c, ReportAll(c, s, ref, init), ref, m);
      LostShasAppend(init, [m]);
      assert init + [m] == ms;
    }
  }

  lemma RefReportsFailures(c: Setup, s: State, r: Ref)
    requires c.execute && r.Ref?
    ensures var after := CheckRef(c, s, r);
            && s.stats.repairFailures <= after.stats.repairFailures
            && (after.stats.repairFailures == s.stats.repairFailures <==>
                   && Publishes(c, r.name, Carried(r) - s.blobs)
                   && (Total(DiffOf(r.tree, r.indexed)) != 0 ==> r.name !in c.unqueueable))
            && (Publishes(c, r.name, Carried(r) - s.blobs) ==> after.blobs == s.blobs + Carried(r))
  {
    ReportsFailures(c, s, r.name, MissingObjects(r.indexed, s.blobs, c.lfs));
    MissingAre(r.indexed, s.blobs, c.lfs);
  }

  lemma CarriedSnoc(refs: seq<Ref>, r: Ref)
    ensures CarriedBy(refs + [r]) == CarriedBy(refs) + Carried(r)
  {
    forall x ensures x in CarriedBy(refs + [r]) <==> x in CarriedBy(refs) || x in Carried(r) {
      assert r in refs + [r];
    }
  }

  predicate AllRepairable(c: Setup, blobs: set<string>, refs: seq<Ref>) {
    forall i :: 0 <= i < |refs| ==> Repairable(c, blobs, refs, i)
  }

  lemma RepairableSnoc(c: Setup, blobs: set<string>, refs: seq<Ref>, r: Ref)
    ensures AllRepairable(c, blobs, refs + [r])
            <==> AllRepairable(c, blobs, refs) && Repairable(c, blobs, refs + [r], |refs|)
  {
    forall i | 0 <= i < |refs| ensures Repairable(c, blobs, refs + [r], i) <==> Repairable(c, blobs, refs, i) {
      assert (refs + [r])[..i] == refs[..i];
    }
    if AllRepairable(c, blobs, refs + [r]) {
      assert forall i :: 0 <= i < |refs| ==> Repairable(c, blobs, refs + [r], i);
    }
  }

  /** A run has no failed repair exactly when no ref is the first to carry a missing blob it cannot publish. */
  lemma {:induction false} RunReportsFailures(c: Setup, s: State, blobs: set<string>, refs: seq<Ref>)
    requires Starts(c, s, blobs) && c.execute
    ensures var end := CheckRefs(c, s, refs);
            && (end.stats.repairFailures == 0 <==> AllRepairable(c, blobs, refs))
            && (end.stats.repairFailures == 0 ==> end.blobs == blobs + CarriedBy(refs))
  {
    if refs == [] {
      assert CarriedBy(refs) == {};
    } else {
      var init, r := refs[..|refs| - 1], refs[|refs| - 1];
      var before := CheckRefs(c, s, init);
      RunReportsFailures(c, s, blobs, init);
      RepairableSnoc(c, blobs, init, r);
      CarriedSnoc(init, r);
      assert init + [r] == refs && refs[..|init|] == init;
      if r.Ref? {
        RefReportsFailures(c, before, r);
        assert Carried(r) - (blobs + CarriedBy(init)) == Carried(r) - blobs - CarriedBy(init);
      }
    }
  }

  /**
    A --yes run ends well exactly when every ref could be read, every blob missing at the start
    can be published out of the first ref that carries it, every drifted ref can be queued, and
    no indexed LFS object is lost.
  */
  lemma RepairVerdictIsAgreeExactlyWhen(c: Setup, s: State, blobs: set<string>, refs: seq<Ref>)
    requires Starts(c, s, blobs)
    requires c.execute
    ensures VerdictOf(CheckRefs(c, s, refs), exists r <- refs :: r.Unreadable?) == Agree
            <==> AllRepairable(c, blobs, refs)
                 && forall r <- refs :: !r.Unreadable? && (r.Ref? ==> LfsThere(r.indexed, c.lfs))
  {
    RunIsAccounted(c, s, refs);
    RunReportsLfs(c, s, blobs, refs);
    RunReportsFailures(c, s, blobs, refs);
    RepairVerdict(c, CheckRefs(c, s, refs), exists r <- refs :: r.Unreadable?);
  }

  lemma RepairVerdict(c: Setup, s: State, unread: bool)
    requires c.execute && Accounted(c, s) && Unrepaired(s.stats) == CountOpen(s.log)
    ensures VerdictOf(s, unread) == Agree <==> !unread && s.stats.repairFailures == 0 && s.stats.missingLfs == 0
  {
  }

  /** And which way it ends otherwise: an unread ref outranks a failed repair, and that a finding left over. */
  lemma RepairVerdictRanksWhatWentWrong(c: Setup, s: State, blobs: set<string>, refs: seq<Ref>)
    requires Starts(c, s, blobs) && c.execute
    ensures var unread := exists r <- refs :: r.Unreadable?;
            var v := VerdictOf(CheckRefs(c, s, refs), unread);
            && (v.ChecksFailed? <==> unread)
            && (v.RepairsFailed? <==> !unread && !AllRepairable(c, blobs, refs))
            && (v.Left? <==> !unread && AllRepairable(c, blobs, refs)
                             && exists r <- refs :: r.Ref? && !LfsThere(r.indexed, c.lfs))
  {
    RepairVerdictIsAgreeExactlyWhen(c, s, blobs, refs);
    RunReportsFailures(c, s, blobs, refs);
    RunReportsLfs(c, s, blobs, refs);
  }
}
