/**
  How a ref whose index is dropped or replaced under its own push loses a blob, however well
  everything else is timed.
*/
module BlobLoss {
  import opened BlobLedger

  ghost predicate Path(s: State, es: seq<Event>, t: State) {
    Run(s, es) && After(s, es) == t && AlwaysTimely(s, es, 0, 0, true)
  }

  lemma {:induction false} PathJoin(s: State, a: seq<Event>, t: State, b: seq<Event>, u: State)
    requires Path(s, a, t) && Path(t, b, u)
    ensures Path(s, a + b, u)
    decreases |a|
  {
    if a == [] {
      assert a + b == b;
    } else {
      PathJoin(Apply(s, a[0]), a[1..], t, b, u);
      RunCons(s, a[0], a[1..] + b);
      assert [a[0]] + (a[1..] + b) == a + b && (a + b)[1..] == a[1..] + b;
    }
  }

  /** t is reached from s by steps that keep the timing, but for index writes and drops. */
  ghost predicate Reach(s: State, t: State) {
    exists es :: Path(s, es, t)
  }

  lemma ReachStep(s: State, t: State, e: Event, u: State)
    requires Reach(s, t) && Enabled(t, e) && Apply(t, e) == u
    requires Timely(t, e, 0, 0) || Replaces(e)
    ensures Reach(s, u)
  {
    var a :| Path(s, a, t);
    assert AlwaysTimely(u, [], 0, 0, true);
    RunCons(t, e, []);
    assert [e] + [] == [e] && Path(t, [e], u);
    PathJoin(s, a, t, [e], u);
  }

  /** One step that keeps the timing, but for index writes and drops. */
  ghost predicate Goes(s: State, e: Event, t: State) {
    Enabled(s, e) && Apply(s, e) == t && (Timely(s, e, 0, 0) || Replaces(e))
  }

  lemma ReachGoes(s: State, e: Event, t: State)
    requires Goes(s, e, t)
    ensures Reach(s, t)
  {
    ReachSame(s);
    ReachStep(s, s, e, t);
  }

  lemma ReachJoin(s: State, t: State, u: State)
    requires Reach(s, t) && Reach(t, u)
    ensures Reach(s, u)
  {
    var a :| Path(s, a, t);
    var b :| Path(t, b, u);
    PathJoin(s, a, t, b, u);
  }

  lemma ReachSame(s: State)
    ensures Reach(s, s)
  {
    assert Path(s, [], s);
  }

  // ------------------------------------------------------------- pieces of the run

  /** The pipeline at another stage. */
  function Staged(s: State, p: Pid, stage: Stage): State
    requires p in s.pipes
  {
    s.(pipes := s.pipes[p := s.pipes[p].(stage := stage)])
  }

  lemma SelectsNothing(s: State, p: Pid)
    requires p in s.pipes && s.pipes[p].stage.Indexed? && s.ledger.Keys !! IndexOf(s, s.pipes[p].ref)
    ensures Goes(s, Select(p), Staged(s, p, Locking({}, {}, s.writes)))
  {
    assert s.ledger.Keys * IndexOf(s, s.pipes[p].ref) == {};
  }

  lemma LocksNothing(s: State, p: Pid)
    requires p in s.pipes
    ensures Goes(Staged(s, p, Locking({}, {}, s.writes)), LocksTaken(p), Staged(s, p, Repairing({}, {}, s.writes)))
  {
  }

  lemma FinishesNothing(s: State, p: Pid, t: State)
    requires p in s.pipes
    requires t == s.(pipes := s.pipes - {p}, owed := StillOwed(s.owed, s.pipes[p].ref, s.writes))
    ensures Goes(Staged(s, p, Repairing({}, {}, s.writes)), Finish(p), t)
  {
    assert Staged(s, p, Repairing({}, {}, s.writes)).pipes - {p} == s.pipes - {p} && s.ledger - {} == s.ledger;
  }

  /** An indexed pipeline whose ref's blobs have no ledger rows goes through its repair and is done. */
  lemma RepairsNothing(s: State, p: Pid, t: State)
    requires p in s.pipes && s.pipes[p].stage.Indexed? && s.ledger.Keys !! IndexOf(s, s.pipes[p].ref)
    requires t == s.(pipes := s.pipes - {p}, owed := StillOwed(s.owed, s.pipes[p].ref, s.writes))
    ensures Reach(s, t)
  {
    var s1, s2 := Staged(s, p, Locking({}, {}, s.writes)), Staged(s, p, Repairing({}, {}, s.writes));
    SelectsNothing(s, p);
    LocksNothing(s, p);
    FinishesNothing(s, p, t);
    ReachGoes(s, Select(p), s1);
    ReachGoes(s1, LocksTaken(p), s2);
    ReachGoes(s2, Finish(p), t);
    ReachJoin(s, s1, s2);
    ReachJoin(s, s2, t);
  }

  /** The only object is old and unreferenced, and no gc is under way. */
  ghost predicate Ripe(s: State, x: Sha) {
    && s.scans == map[] && s.gcs == map[] && s.stored == map[x := 0] && s.ledger == map[]
    && BLOB_GRACE < s.now && !Referenced(s, x) && RowFree(s, x)
  }

  lemma GcScreens(s: State, g: Pid, x: Sha)
    requires Ripe(s, x)
    ensures Goes(s.(scans := map[g := Listed(s.stored)]), Screen(g), s.(scans := map[g := Screened({x})]))
  {
    assert Candidates(s.(scans := map[g := Listed(s.stored)]), s.stored) == {x};
  }

  lemma GcLists(s: State, g: Pid, x: Sha, t: State)
    requires Ripe(s, x) && t == s.(scans := map[g := Screened({x})])
    ensures Reach(s, t)
  {
    var s1 := s.(scans := map[g := Listed(s.stored)]);
    GcScreens(s, g, x);
    assert Goes(s, List(g), s1);
    ReachGoes(s, List(g), s1);
    ReachGoes(s1, Screen(g), t);
    ReachJoin(s, s1, t);
  }

  lemma GcIntends(s: State, g: Pid, x: Sha, t: State)
    requires Ripe(s.(scans := map[]), x) && s.scans == map[g := Screened({x})]
    requires t == s.(ledger := map[x := s.now], scans := map[g := Screened({})],
                     gcs := map[g := Collect(x, s.now, Recorded)])
    ensures Goes(s, Intent(g, x), t)
  {
    assert {x} - {x} == {};
  }

  lemma GcClaims(s: State, g: Pid, x: Sha, t: State)
    requires s.gcs == map[g := Collect(x, s.now, Recorded)] && x in s.ledger
    requires forall p <- s.pipes :: x !in s.pipes[p].Locks()
    requires t == s.(gcs := map[g := Collect(x, s.now, Held)])
    ensures Goes(s, Claim(g), t)
  {
  }

  lemma GcRemovesBytes(s: State, g: Pid, x: Sha)
    requires s.gcs == map[g := Collect(x, s.now, Cleared)] && s.stored == map[x := 0]
    ensures Goes(s, RemoveBytes(g), s.(stored := map[], gcs := map[g := Collect(x, s.now, Removed)]))
  {
    assert s.stored - {x} == map[];
  }

  lemma GcEnds(s: State, g: Pid, c: Collect)
    requires s.gcs == map[g := c]
    ensures Goes(s, EndCollect(g), s.(gcs := map[]))
  {
    assert s.gcs - {g} == map[];
  }

  lemma GcRemoves(s: State, g: Pid, x: Sha, t: State)
    requires s.gcs == map[g := Collect(x, s.now, Cleared)] && s.stored == map[x := 0]
    requires t == s.(stored := map[], gcs := map[])
    ensures Reach(s, t)
  {
    var s1 := s.(stored := map[], gcs := map[g := Collect(x, s.now, Removed)]);
    GcRemovesBytes(s, g, x);
    GcEnds(s1, g, Collect(x, s.now, Removed));
    ReachGoes(s, RemoveBytes(g), s1);
    ReachGoes(s1, EndCollect(g), t);
    ReachJoin(s, s1, t);
  }

  lemma GcRechecks(s: State, g: Pid, x: Sha, t: State)
    requires s.gcs == map[g := Collect(x, s.now, Held)] && !Referenced(s, x)
    requires t == s.(gcs := map[g := Collect(x, s.now, Cleared)])
    ensures Reach(s, t)
  {
    assert Apply(s, Recheck(g)) == t;
    ReachSame(s);
    ReachStep(s, s, Recheck(g), t);
  }

  /** With x ripe, gc takes it. */
  lemma GcTakes(s: State, g: Pid, x: Sha, t: State)
    requires Ripe(s, x) && t == s.(stored := map[], ledger := map[x := s.now], scans := map[g := Screened({})])
    ensures Reach(s, t)
  {
    var s1 := s.(scans := map[g := Screened({x})]);
    var s2 := t.(stored := map[x := 0], gcs := map[g := Collect(x, s.now, Recorded)]);
    var s3 := t.(stored := map[x := 0], gcs := map[g := Collect(x, s.now, Held)]);
    var s4 := t.(stored := map[x := 0], gcs := map[g := Collect(x, s.now, Cleared)]);
    GcLists(s, g, x, s1);
    assert s1.(scans := map[]) == s;
    GcIntends(s1, g, x, s2);
    GcClaims(s2, g, x, s3);
    GcRechecks(s3, g, x, s4);
    GcRemoves(s4, g, x, t);
    ReachGoes(s1, Intent(g, x), s2);
    ReachGoes(s2, Claim(g), s3);
    ReachJoin(s, s1, s2);
    ReachJoin(s, s2, s3);
    ReachJoin(s, s3, s4);
    ReachJoin(s, s4, t);
  }

  // ------------------------------------------------------------------- the run

  lemma OldPush(r0: Ref, x: Sha, s: State)
    requires s == EMPTY.(stored := map[x := 0], index := map[r0 := {x}], writes := 1,
                         owed := map[0 := Due(r0, 1, false)],
                         pipes := map[0 := Pipe(r0, 0, {x}, {x}, Indexed)])
    ensures Reach(EMPTY, s)
  {
    var pipe := Pipe(r0, 0, {x}, {}, Publishing);
    var s1 := EMPTY.(pipes := map[0 := pipe]);
    var s2 := EMPTY.(stored := map[x := 0], pipes := map[0 := pipe.(settled := {x})]);
    assert {x} * IndexOf(EMPTY, r0) == {} && {} + {x} == {x};
    ReachSame(EMPTY);
    ReachStep(EMPTY, EMPTY, Start(0, r0, {x}), s1);
    assert Apply(s1, Publish(0, x)) == s2;
    ReachStep(EMPTY, s1, Publish(0, x), s2);
    assert Apply(s2, Index(0)) == s;
    ReachStep(EMPTY, s2, Index(0), s);
  }

  /** Another ref carried x more than a day ago and was deleted since: only the bytes are left. */
  lemma OldBlob(r0: Ref, x: Sha, s: State)
    requires s == EMPTY.(now := BLOB_GRACE + 1, stored := map[x := 0], writes := 1)
    ensures Reach(EMPTY, s)
  {
    var s1 := EMPTY.(stored := map[x := 0], index := map[r0 := {x}], writes := 1, owed := map[0 := Due(r0, 1, false)],
                     pipes := map[0 := Pipe(r0, 0, {x}, {x}, Indexed)]);
    var s2 := EMPTY.(stored := map[x := 0], index := map[r0 := {x}], writes := 1);
    var s3 := EMPTY.(stored := map[x := 0], writes := 1);
    OldPush(r0, x, s1);
    assert StillOwed(s1.owed, r0, 1) == map[] && s1.pipes - {0} == map[];
    RepairsNothing(s1, 0, s2);
    ReachJoin(EMPTY, s1, s2);
    assert Apply(s2, DropIndex(r0)) == s3;
    ReachStep(EMPTY, s2, DropIndex(r0), s3);
    ReachStep(EMPTY, s3, Tick(BLOB_GRACE + 1), s);
  }

  const LATE: nat := BLOB_GRACE + 1

  /** Ref r names x, whose bytes gc took while the push that found them there had yet to index; its job is parked. */
  function Damaged(r: Ref, x: Sha): State {
    State(LATE + LEDGER_GRACE + 1, map[], map[r := {x}], 2, map[x := LATE], map[],
          map[1 := Due(r, 2, true)], map[2 := Screened({})], map[])
  }

  /** The push meets x at its key, so nothing is written; gc, seeing an old and unreferenced object, takes it. */
  lemma PushThenCollect(r: Ref, x: Sha, t: State)
    requires t == State(LATE, map[], map[], 1, map[x := LATE], map[1 := Pipe(r, LATE, {x}, {x}, Publishing)], map[],
                        map[2 := Screened({})], map[])
    ensures Reach(EMPTY, t)
  {
    var s := EMPTY.(now := LATE, stored := map[x := 0], writes := 1);
    OldBlob(r, x, s);
    var pipe := Pipe(r, LATE, {x}, {}, Publishing);
    var s1 := s.(pipes := map[1 := pipe]);
    var s2 := s.(pipes := map[1 := pipe.(settled := {x})]);
    assert {x} * IndexOf(s, r) == {} && {} + {x} == {x};
    ReachStep(EMPTY, s, Start(1, r, {x}), s1);
    assert Apply(s1, Publish(1, x)) == s2;
    ReachStep(EMPTY, s1, Publish(1, x), s2);
    GcTakes(s2, 2, x, t);
    ReachJoin(EMPTY, s2, t);
  }

  lemma PushIndexesAt(r: Ref, x: Sha, s: State, t: State, p: Pid)
    requires s.pipes == map[p := Pipe(r, s.now, {x}, {x}, Publishing)] && s.index.Keys <= {r} && p !in s.owed
    requires t == s.(index := map[r := {x}], writes := s.writes + 1, owed := s.owed[p := Due(r, s.writes + 1, false)],
                     pipes := map[p := Pipe(r, s.now, {x}, {x}, Indexed)])
    ensures Goes(s, Index(p), t)
  {
    PushAppliesAt(r, x, s, p);
  }

  lemma PushAppliesAt(r: Ref, x: Sha, s: State, p: Pid)
    requires s.pipes == map[p := Pipe(r, s.now, {x}, {x}, Publishing)] && s.index.Keys <= {r} && p !in s.owed
    ensures Enabled(s, Index(p)) && IndexAfter(s, Index(p)) == map[r := {x}]
    ensures PipesAfter(s, Index(p)) == map[p := Pipe(r, s.now, {x}, {x}, Indexed)]
    ensures OwedAfter(s, Index(p)) == s.owed[p := Due(r, s.writes + 1, false)]
  {
    assert s.index[r := {x}] == map[r := {x}];
  }

  lemma PushDies(s: State, p: Pid, pipe: Pipe)
    requires s.pipes == map[p := pipe]
    ensures Goes(s, Crash(p), s.(pipes := map[]))
  {
    assert s.pipes - {p} == map[];
  }

  lemma JobParks(s: State, p: Pid, r: Ref)
    requires s.pipes == map[] && s.owed == map[p := Due(r, 2, false)]
    ensures Goes(s, Park(p), s.(owed := map[p := Due(r, 2, true)]))
  {
  }

  lemma DamageHappens(r: Ref, x: Sha)
    ensures Reach(EMPTY, Damaged(r, x))
  {
    var s := State(LATE, map[], map[], 1, map[x := LATE], map[1 := Pipe(r, LATE, {x}, {x}, Publishing)], map[],
                   map[2 := Screened({})], map[]);
    var s1 := s.(index := map[r := {x}], writes := 2, owed := map[1 := Due(r, 2, false)],
                 pipes := map[1 := Pipe(r, LATE, {x}, {x}, Indexed)]);
    var s2 := s1.(pipes := map[]);
    var s3 := s1.(pipes := map[], owed := map[1 := Due(r, 2, true)]);
    PushThenCollect(r, x, s);
    PushIndexesAt(r, x, s, s1, 1);
    PushDies(s1, 1, Pipe(r, LATE, {x}, {x}, Indexed));
    JobParks(s2, 1, r);
    ReachGoes(s, Index(1), s1);
    ReachGoes(s1, Crash(1), s2);
    ReachGoes(s2, Park(1), s3);
    ReachJoin(EMPTY, s, s1);
    ReachJoin(EMPTY, s1, s2);
    ReachJoin(EMPTY, s2, s3);
    ReachStep(EMPTY, s3, Tick(LEDGER_GRACE + 1), Damaged(r, x));
  }

  /** A push of the damaged ref is settling x, which its ref's index covers. */
  function Repushed(r: Ref, x: Sha): State {
    var s := Damaged(r, x);
    s.(pipes := map[3 := Pipe(r, s.now, {x}, {x}, Publishing)])
  }

  lemma RepushHappens(r: Ref, x: Sha)
    ensures Reach(EMPTY, Repushed(r, x))
  {
    DamageHappens(r, x);
    var s := Damaged(r, x);
    assert {x} * IndexOf(s, r) == {x};
    assert Apply(s, Start(3, r, {x})) == Repushed(r, x);
    ReachStep(EMPTY, s, Start(3, r, {x}), Repushed(r, x));
  }

  /** A push is settling x, which is gone and which nothing names, and whose row is old enough. */
  ghost predicate Doomed(s: State, r: Ref, x: Sha) {
    && x !in s.stored && s.ledger == map[x := LATE] && s.now == LATE + LEDGER_GRACE + 1 && s.gcs == map[]
    && s.pipes == map[3 := Pipe(r, s.now, {x}, {x}, Publishing)]
    && s.index.Keys <= {r} && IndexOf(s, r) == {} && 3 !in s.owed
    && forall q <- s.owed :: s.owed[q].ref == r && s.owed[q].write <= s.writes
  }

  lemma RowIsPruned(r: Ref, x: Sha, s: State, t: State)
    requires Doomed(s, r, x) && t == s.(ledger := map[])
    ensures Reach(s, t)
  {
    assert Pruned(s, LATE + 1) == {x};
    assert s.ledger - {x} == map[];
    assert Apply(s, Prune(LATE + 1)) == t;
    ReachSame(s);
    ReachStep(s, s, Prune(LATE + 1), t);
  }

  lemma PushGoesOn(r: Ref, x: Sha, s: State, t: State)
    requires Doomed(s, r, x)
    requires t == s.(ledger := map[], index := map[r := {x}], writes := s.writes + 1, pipes := map[], owed := map[])
    ensures Reach(s, t)
  {
    var s1 := s.(ledger := map[]);
    var s2 := s1.(index := map[r := {x}], writes := s.writes + 1, owed := s.owed[3 := Due(r, s.writes + 1, false)],
                  pipes := map[3 := Pipe(r, s.now, {x}, {x}, Indexed)]);
    RowIsPruned(r, x, s, s1);
    PushIndexesAt(r, x, s1, s2, 3);
    ReachGoes(s1, Index(3), s2);
    PushFinishes(r, x, s2, t);
    ReachJoin(s, s1, s2);
    ReachJoin(s, s2, t);
  }

  lemma PushFinishes(r: Ref, x: Sha, s: State, t: State)
    requires s.pipes == map[3 := Pipe(r, s.now, {x}, {x}, Indexed)] && s.ledger == map[]
    requires forall q <- s.owed :: s.owed[q].ref == r && s.owed[q].write <= s.writes
    requires t == s.(pipes := map[], owed := map[])
    ensures Reach(s, t)
  {
    assert StillOwed(s.owed, r, s.writes) == map[] && s.pipes - {3} == map[];
    RepairsNothing(s, 3, t);
  }

  /** x is indexed, gone, unrecorded, and nobody owes anything. */
  ghost predicate Lost(s: State, r: Ref, x: Sha) {
    s.owed == map[] && s.index == map[r := {x}] && x !in s.stored && x !in s.ledger
  }

  /**
    With instantaneous pushes and collectors, and every prune a full grace old, the promise
    still fails if a ref may be dropped under its own pipeline: a later push of a damaged
    ref skips x as already indexed, the drop removes the only reference, a prune takes the
    row, and the push then indexes and finishes with x gone, unrecorded and owed by nobody.
  */
  lemma DropUnderAPushLosesABlob(r: Ref, x: Sha)
    ensures exists es :: Run(EMPTY, es) && AlwaysTimely(EMPTY, es, 0, 0, true) && Lost(After(EMPTY, es), r, x)
  {
    var s := Repushed(r, x);
    RepushHappens(r, x);
    var s1 := s.(index := map[]);
    assert Apply(s, DropIndex(r)) == s1;
    ReachStep(EMPTY, s, DropIndex(r), s1);
    var t := s1.(ledger := map[], index := map[r := {x}], writes := s1.writes + 1, pipes := map[], owed := map[]);
    PushGoesOn(r, x, s1, t);
    ReachJoin(EMPTY, s1, t);
    var es :| Path(EMPTY, es, t);
    assert Run(EMPTY, es);
  }

  lemma OtherStarts(s: State, r: Ref)
    requires 4 !in s.pipes && 4 !in s.owed
    ensures Goes(s, Start(4, r, {}), s.(pipes := s.pipes[4 := Pipe(r, s.now, {}, {}, Publishing)]))
  {
    assert {} * IndexOf(s, r) == {};
  }

  lemma OtherIndexes(s: State, r: Ref, t: State)
    requires 4 !in s.owed
    requires t == s.(index := s.index[r := {}], writes := s.writes + 1,
                     owed := s.owed[4 := Due(r, s.writes + 1, false)],
                     pipes := s.pipes[4 := Pipe(r, s.now, {}, {}, Indexed)])
    ensures Goes(s.(pipes := s.pipes[4 := Pipe(r, s.now, {}, {}, Publishing)]), Index(4), t)
  {
  }

  lemma Replaced(r: Ref, x: Sha, t: State)
    requires t == Repushed(r, x).(index := map[r := {}], writes := 3, owed := map[])
    ensures Reach(Repushed(r, x), t)
  {
    var s := Repushed(r, x);
    var s0 := s.(pipes := s.pipes[4 := Pipe(r, s.now, {}, {}, Publishing)]);
    var s1 := s.(index := map[r := {}], writes := 3, owed := s.owed[4 := Due(r, 3, false)],
                 pipes := s.pipes[4 := Pipe(r, s.now, {}, {}, Indexed)]);
    assert s.index[r := {}] == map[r := {}];
    OtherStarts(s, r);
    OtherIndexes(s, r, s1);
    ReachGoes(s, Start(4, r, {}), s0);
    ReachGoes(s0, Index(4), s1);
    ReachJoin(s, s0, s1);
    ReplacementFinishes(r, s, s1, t);
    ReachJoin(s, s1, t);
  }

  lemma ReplacementFinishes(r: Ref, s: State, s1: State, t: State)
    requires 4 !in s.pipes && s.owed.Keys == {1} && s.owed[1].ref == r && s.owed[1].write == 2
    requires s1 == s.(index := map[r := {}], writes := 3, owed := s.owed[4 := Due(r, 3, false)],
                      pipes := s.pipes[4 := Pipe(r, s.now, {}, {}, Indexed)])
    requires t == s.(index := map[r := {}], writes := 3, owed := map[])
    ensures Reach(s1, t)
  {
    assert StillOwed(s1.owed, r, 3) == map[] && s1.pipes - {4} == s.pipes;
    RepairsNothing(s1, 4, t);
  }

  /**
    Two pipelines on one ref do the same: one in another process, over a tree without x,
    replaces the index while the first is settling x.
  */
  lemma ReplaceUnderAPushLosesABlob(r: Ref, x: Sha)
    ensures exists es :: Run(EMPTY, es) && AlwaysTimely(EMPTY, es, 0, 0, true) && Lost(After(EMPTY, es), r, x)
  {
    var s := Repushed(r, x).(index := map[r := {}], writes := 3, owed := map[]);
    RepushHappens(r, x);
    Replaced(r, x, s);
    ReachJoin(EMPTY, Repushed(r, x), s);
    var t := s.(ledger := map[], index := map[r := {x}], writes := 4, pipes := map[], owed := map[]);
    PushGoesOn(r, x, s, t);
    ReachJoin(EMPTY, s, t);
    var es :| Path(EMPTY, es, t);
    assert Run(EMPTY, es);
  }
}
