/**
  What must have happened, over any run, before a blob's bytes go, before its ledger row comes
  or goes, and before a ref's index names it. Said of the steps of the run alone, in the states
  in which they were taken.
*/
module BlobOrigins {
  import opened BlobLedger

  /** The state a run has reached before its step i. */
  function Reached(s: State, es: seq<Event>, i: nat): State
    requires Run(s, es) && i <= |es|
    decreases |es|
  {
    if i == 0 then s else Reached(Apply(s, es[0]), es[1..], i - 1)
  }

  lemma {:induction false} ReachedNext(s: State, es: seq<Event>, i: nat)
    requires Run(s, es) && i < |es|
    ensures Enabled(Reached(s, es, i), es[i])
    ensures Reached(s, es, i + 1) == Apply(Reached(s, es, i), es[i])
    decreases |es|
  {
    if i > 0 { ReachedNext(Apply(s, es[0]), es[1..], i - 1); }
  }

  lemma {:induction false} ReachedEnd(s: State, es: seq<Event>)
    requires Run(s, es)
    ensures Reached(s, es, |es|) == After(s, es)
    decreases |es|
  {
    if es != [] { ReachedEnd(Apply(s, es[0]), es[1..]); }
  }

  // ------------------------------------------------------------ how a blob's bytes go

  /** g listed x at step a, written at time t. */
  predicate ListedAt(s: State, es: seq<Event>, a: nat, g: Pid, x: Sha, t: nat)
    requires Run(s, es)
  {
    a < |es| && es[a] == List(g) && var was := Reached(s, es, a).stored; x in was && was[x] == t
  }

  predicate NoRefNames(s: State, x: Sha) {
    forall r <- s.index :: x !in s.index[r]
  }

  /** By step i g had listed x, and found it over a day old and named by no ref. */
  ghost predicate ScreenedBy(s: State, es: seq<Event>, i: nat, g: Pid, x: Sha)
    requires Run(s, es) && i <= |es|
  {
    exists a: nat, b: nat, t: nat ::
      && a < b < i && ListedAt(s, es, a, g, x, t) && es[b] == Screen(g)
      && t + 24 * 3600 < Reached(s, es, b).now && NoRefNames(Reached(s, es, b), x)
  }

  /** And had then written down that it would remove it. */
  ghost predicate RecordedBy(s: State, es: seq<Event>, i: nat, g: Pid, x: Sha)
    requires Run(s, es) && i <= |es|
  {
    exists c: nat :: c < i && es[c] == Intent(g, x) && ScreenedBy(s, es, c, g, x)
  }

  /** And had then looked once more and found no ref that names it. */
  ghost predicate ClearedBy(s: State, es: seq<Event>, i: nat, g: Pid, x: Sha)
    requires Run(s, es) && i <= |es|
  {
    exists d: nat ::
      d < i && es[d] == Recheck(g) && NoRefNames(Reached(s, es, d), x) && RecordedBy(s, es, d, g, x)
  }

  /** What a gc run under way at step i has done so far. */
  ghost predicate ScanHistory(s: State, es: seq<Event>, i: nat, g: Pid)
    requires Run(s, es) && i <= |es|
  {
    var now := Reached(s, es, i);
    g in now.scans ==>
      match now.scans[g]
      case Listed(objects) => forall x <- objects :: exists a: nat :: a < i && ListedAt(s, es, a, g, x, objects[x])
      case Screened(candidates) => forall x <- candidates :: ScreenedBy(s, es, i, g, x)
  }

  ghost predicate CollectHistory(s: State, es: seq<Event>, i: nat, g: Pid)
    requires Run(s, es) && i <= |es|
  {
    var now := Reached(s, es, i);
    g in now.gcs ==>
      && RecordedBy(s, es, i, g, now.gcs[g].sha)
      && (now.gcs[g].stage.Cleared? ==> ClearedBy(s, es, i, g, now.gcs[g].sha))
  }

  lemma ScreenedLater(s: State, es: seq<Event>, i: nat, j: nat, g: Pid, x: Sha)
    requires Run(s, es) && i <= j <= |es|
    ensures ScreenedBy(s, es, i, g, x) ==> ScreenedBy(s, es, j, g, x)
    ensures RecordedBy(s, es, i, g, x) ==> RecordedBy(s, es, j, g, x)
    ensures ClearedBy(s, es, i, g, x) ==> ClearedBy(s, es, j, g, x)
  {
  }

  lemma ScanStays(s: State, e: Event, g: Pid)
    requires Enabled(s, e) && e != List(g) && e != Screen(g) && !(e.Intent? && e.g == g)
    ensures g in Apply(s, e).scans <==> g in s.scans
    ensures g in s.scans ==> Apply(s, e).scans[g] == s.scans[g]
  {
  }

  lemma ScanHistoryStays(s: State, es: seq<Event>, i: nat, g: Pid)
    requires Run(s, es) && i < |es| && ScanHistory(s, es, i, g)
    requires es[i] != List(g) && es[i] != Screen(g) && !(es[i].Intent? && es[i].g == g)
    ensures ScanHistory(s, es, i + 1, g)
  {
    ReachedNext(s, es, i);
    ScanStays(Reached(s, es, i), es[i], g);
    forall x: Sha ensures ScreenedBy(s, es, i, g, x) ==> ScreenedBy(s, es, i + 1, g, x) {
      ScreenedLater(s, es, i, i + 1, g, x);
    }
  }

  lemma ScreenedNow(s: State, es: seq<Event>, a: nat, b: nat, g: Pid, x: Sha, t: nat)
    requires Run(s, es) && a < b < |es| && ListedAt(s, es, a, g, x, t) && es[b] == Screen(g)
    requires t + 24 * 3600 < Reached(s, es, b).now && NoRefNames(Reached(s, es, b), x)
    ensures ScreenedBy(s, es, b + 1, g, x)
  {
  }

  lemma ScreenHistory(s: State, es: seq<Event>, i: nat, g: Pid)
    requires Run(s, es) && i < |es| && ScanHistory(s, es, i, g) && es[i] == Screen(g)
    ensures ScanHistory(s, es, i + 1, g)
  {
    ReachedNext(s, es, i);
    var now := Reached(s, es, i);
    var objects := now.scans[g].objects;
    forall x <- Candidates(now, objects) ensures ScreenedBy(s, es, i + 1, g, x) {
      var a: nat :| a < i && ListedAt(s, es, a, g, x, objects[x]);
      ScreenedNow(s, es, a, i, g, x, objects[x]);
    }
  }

  lemma IntentTakesCandidate(s: State, e: Event)
    requires Enabled(s, e) && e.Intent?
    ensures s.scans[e.g].Screened? && e.x in s.scans[e.g].candidates
    ensures Apply(s, e).scans == s.scans[e.g := Screened(s.scans[e.g].candidates - {e.x})]
  {
  }

  lemma IntentHistory(s: State, es: seq<Event>, i: nat, g: Pid)
    requires Run(s, es) && i < |es| && ScanHistory(s, es, i, g) && es[i].Intent? && es[i].g == g
    ensures ScanHistory(s, es, i + 1, g)
    ensures RecordedBy(s, es, i + 1, g, es[i].x)
  {
    ReachedNext(s, es, i);
    var candidates := Reached(s, es, i).scans[g].candidates;
    IntentTakesCandidate(Reached(s, es, i), es[i]);
    forall y <- candidates ensures ScreenedBy(s, es, i, g, y) && ScreenedBy(s, es, i + 1, g, y) {
      ScreenedLater(s, es, i, i + 1, g, y);
    }
  }

  lemma ListHistory(s: State, es: seq<Event>, i: nat, g: Pid)
    requires Run(s, es) && i < |es| && es[i] == List(g)
    ensures ScanHistory(s, es, i + 1, g)
  {
    ReachedNext(s, es, i);
    var now := Reached(s, es, i);
    forall x <- now.stored ensures exists a: nat :: a < i + 1 && ListedAt(s, es, a, g, x, now.stored[x]) {
      assert ListedAt(s, es, i, g, x, now.stored[x]);
    }
  }

  lemma ScanHistoryStep(s: State, es: seq<Event>, i: nat, g: Pid)
    requires Run(s, es) && i < |es| && ScanHistory(s, es, i, g)
    ensures ScanHistory(s, es, i + 1, g)
  {
    if es[i] == List(g) {
      ListHistory(s, es, i, g);
    } else if es[i] == Screen(g) {
      ScreenHistory(s, es, i, g);
    } else if es[i].Intent? && es[i].g == g {
      IntentHistory(s, es, i, g);
    } else {
      ScanHistoryStays(s, es, i, g);
    }
  }

  /** A collector under way keeps its blob, and is cleared only by looking again. */
  lemma CollectStays(s: State, e: Event, g: Pid)
    requires Enabled(s, e) && g in Apply(s, e).gcs && !(e.Intent? && e.g == g)
    ensures g in s.gcs && Apply(s, e).gcs[g].sha == s.gcs[g].sha
    ensures Apply(s, e).gcs[g].stage.Cleared? && !s.gcs[g].stage.Cleared? ==>
              e == Recheck(g) && NoRefNames(s, s.gcs[g].sha)
  {
  }

  lemma CollectHistoryStep(s: State, es: seq<Event>, i: nat, g: Pid)
    requires Run(s, es) && i < |es| && ScanHistory(s, es, i, g) && CollectHistory(s, es, i, g)
    ensures CollectHistory(s, es, i + 1, g)
  {
    ReachedNext(s, es, i);
    var next := Reached(s, es, i + 1);
    if es[i].Intent? && es[i].g == g {
      IntentHistory(s, es, i, g);
    } else if g in next.gcs {
      CollectStays(Reached(s, es, i), es[i], g);
      ScreenedLater(s, es, i, i + 1, g, next.gcs[g].sha);
    }
  }

  lemma {:induction false} Histories(s: State, es: seq<Event>, i: nat, g: Pid)
    requires s.scans == map[] && s.gcs == map[] && Run(s, es) && i <= |es|
    ensures ScanHistory(s, es, i, g) && CollectHistory(s, es, i, g)
    decreases i
  {
    if i > 0 {
      Histories(s, es, i - 1, g);
      ScanHistoryStep(s, es, i - 1, g);
      CollectHistoryStep(s, es, i - 1, g);
    }
  }

  predicate TakesBytes(e: Event, g: Pid) {
    e == RemoveBytes(g) || e == RemoveFailed(g, true)
  }

  /** The bytes of x go in no other step. */
  lemma BytesGoHere(s: State, e: Event, x: Sha)
    requires Enabled(s, e) && x in s.stored
    ensures (x in Apply(s, e).stored && Apply(s, e).stored[x] == s.stored[x])
            || exists g :: TakesBytes(e, g) && g in s.gcs && s.gcs[g].sha == x && s.gcs[g].stage.Cleared?
  {
    if e.RemoveBytes? || (e.RemoveFailed? && e.gone) { assert TakesBytes(e, e.g); }
  }

  lemma {:induction false} BytesGoSomewhere(s: State, es: seq<Event>, i: nat, x: Sha) returns (j: nat)
    requires Run(s, es) && i <= |es| && x in s.stored
    requires x in Reached(s, es, i).stored ==> Reached(s, es, i).stored[x] != s.stored[x]
    ensures j < i && x in Reached(s, es, j).stored
    ensures exists g :: TakesBytes(es[j], g) && g in Reached(s, es, j).gcs
                        && Reached(s, es, j).gcs[g].sha == x && Reached(s, es, j).gcs[g].stage.Cleared?
    decreases i
  {
    if i == 0 { assert false; }
    j := i - 1;
    ReachedNext(s, es, j);
    var was := Reached(s, es, j);
    if x in was.stored && was.stored[x] == s.stored[x] {
      BytesGoHere(was, es[j], x);
    } else {
      j := BytesGoSomewhere(s, es, j, x);
    }
  }

  /**
    How a blob goes, over every run: only where one gc run listed it, found it over a day old and
    named by no ref, wrote down that it would remove it, looked again and still found no ref that
    names it, and then removed it.
  */
  lemma BytesGoByCollection(s: State, es: seq<Event>, x: Sha) returns (j: nat, g: Pid)
    requires s.scans == map[] && s.gcs == map[] && Run(s, es) && x in s.stored
    requires x in After(s, es).stored ==> After(s, es).stored[x] != s.stored[x]
    ensures j < |es| && TakesBytes(es[j], g) && ClearedBy(s, es, j, g, x)
  {
    ReachedEnd(s, es);
    j := BytesGoSomewhere(s, es, |es|, x);
    g :| TakesBytes(es[j], g) && g in Reached(s, es, j).gcs
         && Reached(s, es, j).gcs[g].sha == x && Reached(s, es, j).gcs[g].stage.Cleared?;
    Histories(s, es, j, g);
  }

  // ------------------------------------------------- how a ref comes to name a blob

  /** By step i pipeline p had published x, or had found it in its ref's index when it began. */
  ghost predicate SettledBy(s: State, es: seq<Event>, i: nat, p: Pid, r: Ref, x: Sha)
    requires Run(s, es) && i <= |es|
  {
    exists k: nat :: k < i &&
      (es[k] == Publish(p, x) || (es[k].Start? && es[k].p == p && es[k].r == r && x in IndexOf(Reached(s, es, k), r)))
  }

  /** And had put it back in its repair. */
  ghost predicate PutBackBy(s: State, es: seq<Event>, i: nat, p: Pid, x: Sha)
    requires Run(s, es) && i <= |es|
  {
    exists k: nat :: k < i && es[k] == Republish(p, x)
  }

  /** By step i p had begun to push a tree to r. */
  ghost predicate StartedBy(s: State, es: seq<Event>, i: nat, p: Pid, r: Ref, tree: set<Sha>)
    requires Run(s, es) && i <= |es|
  {
    exists k: nat :: k < i && es[k] == Start(p, r, tree)
  }

  /** The rows a repair is to take, or has taken. */
  function InHand(stage: Stage): set<Sha> {
    match stage
    case Locking(todo, locked, _) => todo + locked
    case Repairing(locked, _, _) => locked
    case _ => {}
  }

  /** Its repair had found x in its ref's index, with a ledger row. */
  ghost predicate SelectedBy(s: State, es: seq<Event>, i: nat, p: Pid, r: Ref, x: Sha)
    requires Run(s, es) && i <= |es|
  {
    exists k: nat :: k < i && es[k] == Select(p) && x in Reached(s, es, k).ledger && x in IndexOf(Reached(s, es, k), r)
  }

  ghost predicate PipeHistory(s: State, es: seq<Event>, i: nat, p: Pid)
    requires Run(s, es) && i <= |es|
  {
    var now := Reached(s, es, i);
    p in now.pipes ==>
      var pipe := now.pipes[p];
      && StartedBy(s, es, i, p, pipe.ref, pipe.tree)
      && (forall x <- pipe.settled :: SettledBy(s, es, i, p, pipe.ref, x))
      && (pipe.stage.Repairing? ==> forall x <- pipe.stage.back :: PutBackBy(s, es, i, p, x))
      && (forall x <- InHand(pipe.stage) :: SelectedBy(s, es, i, p, pipe.ref, x))
  }

  lemma HistoryLater(s: State, es: seq<Event>, i: nat, p: Pid, r: Ref, tree: set<Sha>)
    requires Run(s, es) && i < |es|
    ensures StartedBy(s, es, i, p, r, tree) ==> StartedBy(s, es, i + 1, p, r, tree)
    ensures forall x :: SettledBy(s, es, i, p, r, x) ==> SettledBy(s, es, i + 1, p, r, x)
    ensures forall x :: PutBackBy(s, es, i, p, x) ==> PutBackBy(s, es, i + 1, p, x)
    ensures forall x :: SelectedBy(s, es, i, p, r, x) ==> SelectedBy(s, es, i + 1, p, r, x)
  {
  }

  /** What one step adds to a pipeline. */
  lemma PipeGains(s: State, e: Event, p: Pid)
    requires Enabled(s, e) && p in Apply(s, e).pipes
    ensures var pipe := Apply(s, e).pipes[p];
            if e.Start? && e.p == p then
              pipe.ref == e.r && pipe.tree == e.tree && pipe.settled <= IndexOf(s, e.r) && !pipe.stage.Repairing?
            else
              && p in s.pipes && pipe.ref == s.pipes[p].ref && pipe.tree == s.pipes[p].tree
              && (forall x <- pipe.settled :: x in s.pipes[p].settled || e == Publish(p, x))
              && (pipe.stage.Repairing? ==> forall x <- pipe.stage.back ::
                    (s.pipes[p].stage.Repairing? && x in s.pipes[p].stage.back) || e == Republish(p, x))
  {
  }

  lemma HandGains(s: State, e: Event, p: Pid, x: Sha)
    requires Enabled(s, e) && p in Apply(s, e).pipes && x in InHand(Apply(s, e).pipes[p].stage)
    ensures p in s.pipes
    ensures x in InHand(s.pipes[p].stage)
            || (e == Select(p) && x in s.ledger && x in IndexOf(s, s.pipes[p].ref))
  {
  }

  lemma PipeHistoryStep(s: State, es: seq<Event>, i: nat, p: Pid)
    requires Run(s, es) && i < |es| && PipeHistory(s, es, i, p)
    ensures PipeHistory(s, es, i + 1, p)
  {
    ReachedNext(s, es, i);
    var next := Reached(s, es, i + 1);
    if p in next.pipes {
      var pipe := next.pipes[p];
      PipeGains(Reached(s, es, i), es[i], p);
      HistoryLater(s, es, i, p, pipe.ref, pipe.tree);
      forall x <- InHand(pipe.stage) ensures SelectedBy(s, es, i + 1, p, pipe.ref, x) {
        HandGains(Reached(s, es, i), es[i], p, x);
      }
    }
  }

  lemma {:induction false} PipeHistories(s: State, es: seq<Event>, i: nat, p: Pid)
    requires s.pipes == map[] && Run(s, es) && i <= |es|
    ensures PipeHistory(s, es, i, p)
    decreases i
  {
    if i > 0 {
      PipeHistories(s, es, i - 1, p);
      PipeHistoryStep(s, es, i - 1, p);
    }
  }

  /** A ref comes to name x in no other step. */
  lemma NamedHere(s: State, e: Event, r: Ref, x: Sha)
    requires Enabled(s, e) && x !in IndexOf(s, r) && x in IndexOf(Apply(s, e), r)
    ensures e.Index? && s.pipes[e.p].ref == r && x in s.pipes[e.p].tree && x in s.pipes[e.p].settled
  {
  }

  lemma {:induction false} NamedSomewhere(s: State, es: seq<Event>, i: nat, r: Ref, x: Sha) returns (j: nat)
    requires Run(s, es) && i <= |es| && x !in IndexOf(s, r) && x in IndexOf(Reached(s, es, i), r)
    ensures j < i && x !in IndexOf(Reached(s, es, j), r) && x in IndexOf(Reached(s, es, j + 1), r)
    decreases i
  {
    if i == 0 { assert false; }
    j := i - 1;
    if x in IndexOf(Reached(s, es, j), r) { j := NamedSomewhere(s, es, j, r, x); }
  }

  /**
    How a ref comes to name a blob, over every run: only where a pipeline that had begun to push a
    tree with it to that ref replaces the index, having published the blob or found it indexed.
  */
  lemma NamesComeByPushes(s: State, es: seq<Event>, r: Ref, x: Sha) returns (j: nat, tree: set<Sha>)
    requires s.pipes == map[] && Run(s, es) && x !in IndexOf(s, r) && x in IndexOf(After(s, es), r)
    ensures j < |es| && es[j].Index? && x in tree
    ensures StartedBy(s, es, j, es[j].p, r, tree) && SettledBy(s, es, j, es[j].p, r, x)
  {
    ReachedEnd(s, es);
    j := NamedSomewhere(s, es, |es|, r, x);
    ReachedNext(s, es, j);
    NamedHere(Reached(s, es, j), es[j], r, x);
    PipeHistories(s, es, j, es[j].p);
    tree := Reached(s, es, j).pipes[es[j].p].tree;
  }

  /** A push replaces the whole index of its ref and no other; a deletion takes one ref's away. */
  lemma OnlyItsOwnRef(s: State, e: Event, r: Ref)
    requires Enabled(s, e)
    ensures IndexOf(Apply(s, e), r) ==
            if e.Index? && s.pipes[e.p].ref == r then s.pipes[e.p].tree
            else if e == DropIndex(r) then {} else IndexOf(s, r)
  {
  }

  // ------------------------------------------------------- how a ledger row comes and goes

  lemma {:induction false} RecordedSomewhere(s: State, es: seq<Event>, i: nat, x: Sha, t: nat) returns (j: nat)
    requires Run(s, es) && i <= |es| && (x, t) !in s.ledger.Items && (x, t) in Reached(s, es, i).ledger.Items
    ensures j < i && (x, t) !in Reached(s, es, j).ledger.Items && (x, t) in Reached(s, es, j + 1).ledger.Items
    decreases i
  {
    if i == 0 { assert false; }
    j := i - 1;
    if (x, t) in Reached(s, es, j).ledger.Items { j := RecordedSomewhere(s, es, j, x, t); }
  }

  /** A row is written where a gc run that screened the blob intends to remove it, with the time of the intent. */
  lemma RowsComeByIntent(s: State, es: seq<Event>, x: Sha) returns (j: nat)
    requires s.scans == map[] && s.gcs == map[] && Run(s, es)
    requires x in After(s, es).ledger && (x in s.ledger ==> s.ledger[x] != After(s, es).ledger[x])
    ensures j < |es| && es[j].Intent? && es[j].x == x && After(s, es).ledger[x] == Reached(s, es, j).now
    ensures ScreenedBy(s, es, j, es[j].g, x)
  {
    ReachedEnd(s, es);
    var t := After(s, es).ledger[x];
    j := RecordedSomewhere(s, es, |es|, x, t);
    ReachedNext(s, es, j);
    var was := Reached(s, es, j);
    if !es[j].Intent? { OnlyIntentsRecord(was, es[j]); }
    Histories(s, es, j, es[j].g);
  }

  lemma {:induction false} ForgottenSomewhere(s: State, es: seq<Event>, i: nat, x: Sha) returns (j: nat)
    requires Run(s, es) && i <= |es| && x in s.ledger && x !in Reached(s, es, i).ledger
    ensures j < i && x in Reached(s, es, j).ledger && x !in Reached(s, es, j + 1).ledger
    decreases i
  {
    if i == 0 { assert false; }
    j := i - 1;
    if x !in Reached(s, es, j).ledger { j := ForgottenSomewhere(s, es, j, x); }
  }

  /**
    A row goes where a repair has found its blob named by the repair's ref and put it back, or
    where a prune finds it older than asked and its blob unnamed.
  */
  lemma RowsGoByRepairOrPrune(s: State, es: seq<Event>, x: Sha) returns (j: nat, r: Ref, tree: set<Sha>)
    requires s.pipes == map[] && Run(s, es) && x in s.ledger && x !in After(s, es).ledger
    ensures j < |es| && x in Reached(s, es, j).ledger
    ensures || (es[j].Finish? && StartedBy(s, es, j, es[j].p, r, tree)
                && SelectedBy(s, es, j, es[j].p, r, x) && PutBackBy(s, es, j, es[j].p, x))
            || (es[j].Prune? && Reached(s, es, j).ledger[x] < es[j].before && NoRefNames(Reached(s, es, j), x))
  {
    ReachedEnd(s, es);
    j := ForgottenSomewhere(s, es, |es|, x);
    r, tree := "", {};
    ReachedNext(s, es, j);
    if es[j].Finish? {
      PipeHistories(s, es, j, es[j].p);
      var pipe := Reached(s, es, j).pipes[es[j].p];
      r, tree := pipe.ref, pipe.tree;
    } else if !es[j].Prune? {
      LedgerGrows(Reached(s, es, j), es[j]);
    }
  }
}
