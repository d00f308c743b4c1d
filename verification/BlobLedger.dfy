/**
  The blobs/ layer as a protocol. Nothing records a blob when it is written, so gc
  writes a blob_deletions row before it removes one, and every push ends by repairing,
  from that ledger, the blobs of its own ref. Collectors, push pipelines, prunes and ref
  deletions are small steps that interleave freely; a clock drives the two graces. Several
  pipelines may work on one ref: a ref's lock lives in one process, and a lease can lapse.
*/
module BlobLedger {
  type Sha = string
  type Ref = string   // a repository and one of its branches
  type Pid = nat      // a sync job, a metrics flush, or a gc run

  /** How far one push pipeline has come. `asOf` counts the index writes committed when its repair selected. */
  datatype Stage =
    | Publishing                                              // settling the blobs of the tree it read
    | Indexed                                                 // repo_files replaced
    | Locking(todo: set<Sha>, locked: set<Sha>, asOf: nat)    // RepairDeletedBlobs taking its rows
    | Repairing(locked: set<Sha>, back: set<Sha>, asOf: nat)  // republishing under those locks
  {
    predicate Selected() { Locking? || Repairing? }
  }

  /** settled: the shas already published, or skipped because the ref's index covered them. */
  datatype Pipe = Pipe(ref: Ref, start: nat, tree: set<Sha>, settled: set<Sha>, stage: Stage) {
    function Locks(): set<Sha> {
      if stage.Selected() then stage.locked else {}
    }

    /** The pipeline will meet the ledger row of x, if it lives. */
    predicate Reaches(x: Sha) {
      match stage
      case Locking(todo, locked, _) => x in todo || x in locked
      case Repairing(locked, _, _) => x in locked
      case _ => true
    }
  }

  /**
    What is owed for an index write: the repair of the ref's blobs. A job that dies owes it
    through the queue, until it is parked; `write` numbers the write.
  */
  datatype Due = Due(ref: Ref, write: nat, parked: bool)

  /** DeleteOrphanedBlob: intent committed, row locked, repo_files re-checked, bytes removed. */
  datatype CollectStage = Recorded | Held | Cleared | Removed

  datatype Collect = Collect(sha: Sha, at: nat, stage: CollectStage) {
    function Locks(): set<Sha> {
      if stage.Recorded? then {} else {sha}
    }
  }

  /** A gc run: the objects it listed, with their times, then the candidates left of them. */
  datatype Scan = Listed(objects: map<Sha, nat>) | Screened(candidates: set<Sha>)

  datatype State = State(
    now: nat,
    stored: map<Sha, nat>,       // blobs/, with the time each was written
    index: map<Ref, set<Sha>>,   // repo_files.blob_sha of the plain files, by ref
    writes: nat,                 // how often the index has been replaced
    ledger: map<Sha, nat>,       // blob_deletions.deleted_at
    pipes: map<Pid, Pipe>,
    owed: map<Pid, Due>,
    scans: map<Pid, Scan>,
    gcs: map<Pid, Collect>)

  const EMPTY: State := State(0, map[], map[], 0, map[], map[], map[], map[], map[])

  predicate RowFree(s: State, x: Sha) {
    && (forall p <- s.pipes :: x !in s.pipes[p].Locks())
    && (forall g <- s.gcs :: x !in s.gcs[g].Locks())
  }

  function IndexOf(s: State, r: Ref): set<Sha> {
    if r in s.index then s.index[r] else {}
  }

  predicate Referenced(s: State, x: Sha) {
    exists r <- s.index :: x in s.index[r]
  }

  datatype Event =
    | Tick(d: nat)
    | Start(p: Pid, r: Ref, tree: set<Sha>)   // read the tree and ListIndexedBlobSHAs
    | Publish(p: Pid, x: Sha)                 // PublishBlob: a Stat hit, or a Put
    | Index(p: Pid)                           // ReplaceRepoFiles commits
    | Select(p: Pid)                          // the repair's SELECT
    | LockRow(p: Pid, x: Sha)                 // its FOR UPDATE, one row; a row that went is dropped
    | LocksTaken(p: Pid)
    | Republish(p: Pid, x: Sha)
    | Finish(p: Pid)                          // the repair commits: ledger rows go, the work is done
    | Crash(p: Pid)                           // the pipeline dies or fails; what it owes stays owed
    | Park(p: Pid)                            // its last attempt is spent, or its lease lapses on it
    | Retry(p: Pid)                           // an operator puts a parked job back
    | DropIndex(r: Ref)                       // DeleteRefIndex or a repository delete; takes no ref lock
    | List(g: Pid)                            // gc lists blobs/ ...
    | Screen(g: Pid)                          // ... then drops what is referenced or too young
    | Intent(g: Pid, x: Sha)
    | Claim(g: Pid)
    | Recheck(g: Pid)
    | RemoveBytes(g: Pid)
    | RemoveFailed(g: Pid, gone: bool)
    | EndCollect(g: Pid)                      // commit, rollback or crash: the ledger row stays in each
    | Prune(before: nat)

  predicate At(s: State, p: Pid, stage: Stage) {
    p in s.pipes && s.pipes[p].stage == stage
  }

  predicate GcAt(s: State, g: Pid, stage: CollectStage) {
    g in s.gcs && s.gcs[g].stage == stage
  }

  predicate Enabled(s: State, e: Event) {
    match e
    case Tick(_) => true
    case Start(p, r, _) => p !in s.pipes && (p in s.owed ==> s.owed[p].ref == r && !s.owed[p].parked)
    case Publish(p, x) => At(s, p, Publishing) && x in s.pipes[p].tree - s.pipes[p].settled
    case Index(p) => At(s, p, Publishing) && s.pipes[p].settled == s.pipes[p].tree
    case Select(p) => At(s, p, Indexed)
    case LockRow(p, x) =>
      p in s.pipes && s.pipes[p].stage.Locking? && x in s.pipes[p].stage.todo && RowFree(s, x)
    case LocksTaken(p) => p in s.pipes && s.pipes[p].stage.Locking? && s.pipes[p].stage.todo == {}
    case Republish(p, x) =>
      p in s.pipes && s.pipes[p].stage.Repairing? && x in s.pipes[p].stage.locked - s.pipes[p].stage.back
    case Finish(p) =>
      p in s.pipes && s.pipes[p].stage.Repairing? && s.pipes[p].stage.back == s.pipes[p].stage.locked
    case Crash(p) => p in s.pipes
    case Park(p) => p in s.owed && !s.owed[p].parked
    case Retry(p) => p in s.owed && s.owed[p].parked
    case DropIndex(_) => true
    case List(g) => g !in s.scans
    case Screen(g) => g in s.scans && s.scans[g].Listed?
    case Intent(g, x) =>
      g !in s.gcs && g in s.scans && s.scans[g].Screened? && x in s.scans[g].candidates && RowFree(s, x)
    case Claim(g) => GcAt(s, g, Recorded) && RowFree(s, s.gcs[g].sha)
    case Recheck(g) => GcAt(s, g, Held)
    case RemoveBytes(g) => GcAt(s, g, Cleared)
    case RemoveFailed(g, _) => GcAt(s, g, Cleared)
    case EndCollect(g) => g in s.gcs
    case Prune(_) => true
  }

  /** blobGrace, in seconds: gc leaves an object alone this long after it was written. */
  const BLOB_GRACE: nat := 24 * 3600

  function Pruned(s: State, before: nat): set<Sha> {
    set x | x in s.ledger && s.ledger[x] < before && !Referenced(s, x) && RowFree(s, x)
  }

  /** PublishBlob: an object already at its key is left as it is, its time included. */
  function Put(s: State, x: Sha): map<Sha, nat> {
    if x in s.stored then s.stored else s.stored[x := s.now]
  }

  function Restage(s: State, p: Pid, stage: Stage): map<Pid, Pipe>
    requires p in s.pipes
  {
    s.pipes[p := s.pipes[p].(stage := stage)]
  }

  function Regc(s: State, g: Pid, stage: CollectStage): map<Pid, Collect>
    requires g in s.gcs
  {
    s.gcs[g := s.gcs[g].(stage := stage)]
  }

  /** What a repair of r that selected after `asOf` index writes leaves owed: the later writes, and other refs. */
  function StillOwed(owed: map<Pid, Due>, r: Ref, asOf: nat): map<Pid, Due> {
    map q | q in owed && !(owed[q].ref == r && owed[q].write <= asOf) :: owed[q]
  }

  function Candidates(s: State, objects: map<Sha, nat>): set<Sha> {
    set x | x in objects && objects[x] + BLOB_GRACE < s.now && !Referenced(s, x)
  }

  // What a step does to each table; the steps a function does not name leave its table alone.

  function StoredAfter(s: State, e: Event): map<Sha, nat>
    requires Enabled(s, e)
  {
    match e
    case Publish(_, x) => Put(s, x)
    case Republish(_, x) => Put(s, x)
    case RemoveBytes(g) => s.stored - {s.gcs[g].sha}
    case RemoveFailed(g, gone) => if gone then s.stored - {s.gcs[g].sha} else s.stored
    case _ => s.stored
  }

  function IndexAfter(s: State, e: Event): map<Ref, set<Sha>>
    requires Enabled(s, e)
  {
    match e
    case Index(p) => s.index[s.pipes[p].ref := s.pipes[p].tree]
    case DropIndex(r) => s.index - {r}
    case _ => s.index
  }

  function LedgerAfter(s: State, e: Event): map<Sha, nat>
    requires Enabled(s, e)
  {
    match e
    case Intent(_, x) => s.ledger[x := s.now]
    case Finish(p) => s.ledger - s.pipes[p].stage.locked
    case Prune(before) => s.ledger - Pruned(s, before)
    case _ => s.ledger
  }

  function PipesAfter(s: State, e: Event): map<Pid, Pipe>
    requires Enabled(s, e)
  {
    match e
    case Start(p, r, tree) => s.pipes[p := Pipe(r, s.now, tree, tree * IndexOf(s, r), Publishing)]
    case Publish(p, x) => s.pipes[p := s.pipes[p].(settled := s.pipes[p].settled + {x})]
    case Index(p) => Restage(s, p, Indexed)
    case Select(p) => Restage(s, p, Locking(s.ledger.Keys * IndexOf(s, s.pipes[p].ref), {}, s.writes))
    case LockRow(p, x) =>
      var g := s.pipes[p].stage;
      Restage(s, p, Locking(g.todo - {x}, if x in s.ledger then g.locked + {x} else g.locked, g.asOf))
    case LocksTaken(p) => Restage(s, p, Repairing(s.pipes[p].stage.locked, {}, s.pipes[p].stage.asOf))
    case Republish(p, x) => Restage(s, p, s.pipes[p].stage.(back := s.pipes[p].stage.back + {x}))
    case Finish(p) => s.pipes - {p}
    case Crash(p) => s.pipes - {p}
    case _ => s.pipes
  }

  function OwedAfter(s: State, e: Event): map<Pid, Due>
    requires Enabled(s, e)
  {
    match e
    case Index(p) => s.owed[p := Due(s.pipes[p].ref, s.writes + 1, p in s.owed && s.owed[p].parked)]
    case Finish(p) => StillOwed(s.owed, s.pipes[p].ref, s.pipes[p].stage.asOf)
    case Park(p) => s.owed[p := s.owed[p].(parked := true)]
    case Retry(p) => s.owed[p := s.owed[p].(parked := false)]
    case _ => s.owed
  }

  function ScansAfter(s: State, e: Event): map<Pid, Scan>
    requires Enabled(s, e)
  {
    match e
    case List(g) => s.scans[g := Listed(s.stored)]
    case Screen(g) => s.scans[g := Screened(Candidates(s, s.scans[g].objects))]
    case Intent(g, x) => s.scans[g := Screened(s.scans[g].candidates - {x})]
    case _ => s.scans
  }

  function GcsAfter(s: State, e: Event): map<Pid, Collect>
    requires Enabled(s, e)
  {
    match e
    case Intent(g, x) => s.gcs[g := Collect(x, s.now, Recorded)]
    case Claim(g) => if s.gcs[g].sha in s.ledger then Regc(s, g, Held) else s.gcs - {g}
    case Recheck(g) => if Referenced(s, s.gcs[g].sha) then s.gcs - {g} else Regc(s, g, Cleared)
    case RemoveBytes(g) => Regc(s, g, Removed)
    case RemoveFailed(g, _) => s.gcs - {g}
    case EndCollect(g) => s.gcs - {g}
    case _ => s.gcs
  }

  function Apply(s: State, e: Event): State
    requires Enabled(s, e)
  {
    State(if e.Tick? then s.now + e.d else s.now, StoredAfter(s, e), IndexAfter(s, e),
          if e.Index? then s.writes + 1 else s.writes, LedgerAfter(s, e), PipesAfter(s, e), OwedAfter(s, e),
          ScansAfter(s, e), GcsAfter(s, e))
  }

  /** q owes r a repair, and will meet the ledger row of x: it runs, waits in the queue, or is parked. */
  predicate Answers(s: State, q: Pid, r: Ref, x: Sha) {
    q in s.owed && s.owed[q].ref == r && (q in s.pipes ==> s.pipes[q].Reaches(x))
  }

  /**
    What the ledger promises: an indexed sha whose bytes are missing has a ledger row,
    and somebody owes the ref that names it the repair that will read it.
  */
  ghost predicate Promise(s: State) {
    forall r <- s.index, x <- s.index[r] :: x !in s.stored ==> x in s.ledger && exists q :: Answers(s, q, r, x)
  }

  /** No running pipeline relies on a row this prune takes to learn that a settled blob has gone. */
  ghost predicate PruneHarmless(s: State, before: nat) {
    forall p <- s.pipes, x <- Pruned(s, before) ::
      s.pipes[p].stage.Publishing? && x in s.pipes[p].settled ==> x in s.stored
  }

  // ------------------------------------------------------------- invariant

  /** The bytes of x are gone, or a collector past its re-check is about to remove them. */
  predicate AtRisk(s: State, x: Sha) {
    x !in s.stored || exists g <- s.gcs :: s.gcs[g].sha == x && s.gcs[g].stage.Cleared?
  }

  /** x is at risk, and r names it: the row is there, and somebody owes the repair. */
  ghost predicate Accounted(s: State, r: Ref, x: Sha) {
    x in s.ledger && exists q :: Answers(s, q, r, x)
  }

  /** The pipeline meets the row of x itself, or a later write of the ref owes the repair. */
  ghost predicate Covered(s: State, p: Pipe, x: Sha)
    requires p.stage.Selected()
  {
    p.Reaches(x) || exists q :: Answers(s, q, p.ref, x) && s.owed[q].write > p.stage.asOf
  }

  ghost predicate PipeOk(s: State, p: Pipe) {
    match p.stage
    case Publishing => p.settled <= p.tree && forall x <- p.settled :: x !in s.stored ==> x in s.ledger
    case Indexed => true
    case Locking(_, locked, asOf) => locked <= s.ledger.Keys && asOf <= s.writes
    case Repairing(locked, back, asOf) => back <= locked <= s.ledger.Keys && back <= s.stored.Keys && asOf <= s.writes
  }

  /** A pipeline that owes, owes its own ref, and selects no earlier than the write it owes for. */
  ghost predicate DueOk(s: State, q: Pid) {
    q in s.owed && s.owed[q].write <= s.writes
    && (q in s.pipes ==> s.pipes[q].ref == s.owed[q].ref
                         && (s.pipes[q].stage.Selected() ==> s.owed[q].write <= s.pipes[q].stage.asOf))
  }

  ghost predicate Exclusive(s: State) {
    && (forall p <- s.pipes, q <- s.pipes :: p != q ==> s.pipes[p].Locks() !! s.pipes[q].Locks())
    && (forall g <- s.gcs, h <- s.gcs :: g != h ==> s.gcs[g].Locks() !! s.gcs[h].Locks())
    && (forall p <- s.pipes, g <- s.gcs :: s.pipes[p].Locks() !! s.gcs[g].Locks())
  }

  /** Everything but the account of what is at risk. */
  ghost predicate Base(s: State) {
    && Exclusive(s)
    && (forall p <- s.pipes :: PipeOk(s, s.pipes[p]))
    && (forall q <- s.owed :: DueOk(s, q))
    && (forall g <- s.gcs :: !s.gcs[g].stage.Recorded? ==> s.gcs[g].sha in s.ledger)
  }

  ghost predicate AllAccounted(s: State) {
    forall r <- s.index, x <- s.index[r] :: AtRisk(s, x) ==> Accounted(s, r, x)
  }

  ghost predicate AllCovered(s: State) {
    forall p <- s.pipes :: s.pipes[p].stage.Selected() ==>
      forall x <- IndexOf(s, s.pipes[p].ref) :: AtRisk(s, x) ==> Covered(s, s.pipes[p], x)
  }

  ghost predicate Inv(s: State) {
    Base(s) && AllAccounted(s) && AllCovered(s)
  }

  lemma InvPromises(s: State)
    requires Inv(s)
    ensures Promise(s)
  {
    forall r <- s.index, x <- s.index[r] | x !in s.stored
      ensures x in s.ledger && exists q :: Answers(s, q, r, x)
    {
      assert AtRisk(s, x) && Accounted(s, r, x);
    }
  }

  // ------------------------------------------------------------- the locks and the ledger

  lemma ExclusiveShrinks(s: State, s': State)
    requires Exclusive(s)
    requires forall p <- s'.pipes ::
      s'.pipes[p].Locks() == {} || (p in s.pipes && s'.pipes[p].Locks() <= s.pipes[p].Locks())
    requires forall g <- s'.gcs :: s'.gcs[g].Locks() == {} || (g in s.gcs && s'.gcs[g].Locks() <= s.gcs[g].Locks())
    ensures Exclusive(s')
  {
  }

  lemma LockRowExcludes(s: State, e: Event)
    requires Base(s) && Enabled(s, e) && e.LockRow?
    ensures Exclusive(Apply(s, e))
  {
    var s' := Apply(s, e);
    assert s'.pipes[e.p].Locks() <= s.pipes[e.p].Locks() + {e.x};
    forall q <- s.pipes | q != e.p ensures s'.pipes[e.p].Locks() !! s'.pipes[q].Locks() {
      assert e.x !in s.pipes[q].Locks();
    }
    forall g <- s.gcs ensures s'.pipes[e.p].Locks() !! s'.gcs[g].Locks() {
      assert e.x !in s.gcs[g].Locks();
    }
  }

  lemma ClaimExcludes(s: State, e: Event)
    requires Base(s) && Enabled(s, e) && e.Claim?
    ensures Exclusive(Apply(s, e))
  {
    var x := s.gcs[e.g].sha;
    assert forall g <- s.gcs :: x !in s.gcs[g].Locks();
    if x in s.ledger {
      LockTaken(s, Apply(s, e), e.g, x);
    } else {
      ExclusiveShrinks(s, Apply(s, e));
    }
  }

  /** A collector that held no lock takes a free one. */
  lemma LockTaken(s: State, s': State, g: Pid, x: Sha)
    requires Exclusive(s) && RowFree(s, x) && s'.pipes == s.pipes && s'.gcs.Keys == s.gcs.Keys
    requires g in s'.gcs && s'.gcs[g].Locks() == {x} && forall h <- s.gcs :: h != g ==> s'.gcs[h] == s.gcs[h]
    ensures Exclusive(s')
  {
  }

  lemma GcLocksShrink(s: State, e: Event, g: Pid)
    requires Enabled(s, e) && !e.Claim? && g in Apply(s, e).gcs
    ensures var s' := Apply(s, e);
            s'.gcs[g].Locks() == {} || (g in s.gcs && s'.gcs[g].Locks() <= s.gcs[g].Locks())
  {
  }

  lemma PipeLocksShrink(s: State, e: Event, p: Pid)
    requires Enabled(s, e) && !e.LockRow? && p in Apply(s, e).pipes
    ensures var s' := Apply(s, e);
            s'.pipes[p].Locks() == {} || (p in s.pipes && s'.pipes[p].Locks() <= s.pipes[p].Locks())
  {
  }

  lemma LocksStep(s: State, e: Event)
    requires Base(s) && Enabled(s, e)
    ensures Exclusive(Apply(s, e))
  {
    if e.LockRow? {
      LockRowExcludes(s, e);
    } else if e.Claim? {
      ClaimExcludes(s, e);
    } else {
      var s' := Apply(s, e);
      forall p | p in s'.pipes
        ensures s'.pipes[p].Locks() == {} || (p in s.pipes && s'.pipes[p].Locks() <= s.pipes[p].Locks())
      {
        PipeLocksShrink(s, e, p);
      }
      forall g | g in s'.gcs
        ensures s'.gcs[g].Locks() == {} || (g in s.gcs && s'.gcs[g].Locks() <= s.gcs[g].Locks())
      {
        GcLocksShrink(s, e, g);
      }
      ExclusiveShrinks(s, s');
    }
  }

  lemma DueStays(s: State, e: Event, q: Pid)
    requires Enabled(s, e) && q in s.owed && DueOk(s, q) && q in Apply(s, e).owed && !(e.Index? && q == e.p)
    ensures DueOk(Apply(s, e), q)
  {
  }

  lemma DuesStep(s: State, e: Event)
    requires Base(s) && Enabled(s, e)
    ensures var s' := Apply(s, e); forall q <- s'.owed :: DueOk(s', q)
  {
    var s' := Apply(s, e);
    forall q <- s'.owed ensures DueOk(s', q) {
      if e.Index? && q == e.p {
        assert s'.owed[q].ref == s.pipes[q].ref && s'.owed[q].write == s.writes + 1;
      } else {
        DueStays(s, e, q);
      }
    }
  }

  /** A row some lock is on survives a repair's commit and a prune. */
  lemma LockedRowsStay(s: State, e: Event, g: Pid)
    requires Base(s) && Enabled(s, e) && (e.Finish? || e.Prune?)
    requires g in s.gcs && !s.gcs[g].stage.Recorded?
    ensures s.gcs[g].sha in Apply(s, e).ledger
  {
    assert s.gcs[g].sha in s.gcs[g].Locks();
    if e.Finish? { assert s.pipes[e.p].Locks() !! s.gcs[g].Locks(); }
  }

  lemma LedgerGrows(s: State, e: Event)
    requires Enabled(s, e) && !e.Finish? && !e.Prune?
    ensures s.ledger.Keys <= Apply(s, e).ledger.Keys
  {
  }

  predicate MovesGc(e: Event) {
    e.Intent? || e.Claim? || e.Recheck? || e.RemoveBytes? || e.RemoveFailed? || e.EndCollect?
  }

  lemma GcsStay(s: State, e: Event)
    requires Enabled(s, e) && !MovesGc(e)
    ensures Apply(s, e).gcs == s.gcs
  {
  }

  lemma OtherGcStays(s: State, e: Event, g: Pid)
    requires Enabled(s, e) && MovesGc(e) && g != e.g && g in Apply(s, e).gcs
    ensures g in s.gcs && Apply(s, e).gcs[g] == s.gcs[g]
  {
  }

  /** A collector moves past its claim only where it has just found its row. */
  lemma GcMoves(s: State, e: Event)
    requires Enabled(s, e) && MovesGc(e) && e.g in Apply(s, e).gcs
    ensures var c := Apply(s, e).gcs[e.g];
            if e.Intent? then c == Collect(e.x, s.now, Recorded)
            else e.g in s.gcs && c == s.gcs[e.g].(stage := c.stage)
                 && (e.Claim? ==> c.sha in s.ledger) && (s.gcs[e.g].stage.Recorded? ==> e.Claim?)
  {
  }

  lemma GcsMove(s: State, e: Event)
    requires Base(s) && Enabled(s, e) && MovesGc(e)
    ensures var s' := Apply(s, e); forall g <- s'.gcs :: !s'.gcs[g].stage.Recorded? ==> s'.gcs[g].sha in s'.ledger
  {
    var s' := Apply(s, e);
    LedgerGrows(s, e);
    forall g <- s'.gcs | !s'.gcs[g].stage.Recorded? ensures s'.gcs[g].sha in s'.ledger {
      if g == e.g { GcMoves(s, e); } else { OtherGcStays(s, e, g); }
    }
  }

  lemma GcsStep(s: State, e: Event)
    requires Base(s) && Enabled(s, e)
    ensures var s' := Apply(s, e); forall g <- s'.gcs :: !s'.gcs[g].stage.Recorded? ==> s'.gcs[g].sha in s'.ledger
  {
    if MovesGc(e) {
      GcsMove(s, e);
    } else {
      GcsStay(s, e);
      if e.Finish? || e.Prune? {
        forall g <- s.gcs | !s.gcs[g].stage.Recorded? ensures s.gcs[g].sha in Apply(s, e).ledger {
          LockedRowsStay(s, e, g);
        }
      } else {
        LedgerGrows(s, e);
      }
    }
  }

  lemma StartIsOk(s: State, e: Event)
    requires Inv(s) && Enabled(s, e) && e.Start?
    ensures PipeOk(Apply(s, e), Apply(s, e).pipes[e.p])
  {
    forall x | x in e.tree * IndexOf(s, e.r) && x !in s.stored ensures x in s.ledger {
      assert e.r in s.index && AtRisk(s, x) && Accounted(s, e.r, x);
    }
  }

  lemma PipesOnRemove(s: State, e: Event)
    requires Base(s) && Enabled(s, e) && (e.RemoveBytes? || e.RemoveFailed?)
    ensures var s' := Apply(s, e); forall p <- s'.pipes :: PipeOk(s', s'.pipes[p])
  {
    var s' := Apply(s, e);
    forall p <- s'.pipes ensures PipeOk(s', s'.pipes[p]) {
      assert PipeOk(s, s.pipes[p]) && s.pipes[p].Locks() !! s.gcs[e.g].Locks();
    }
  }

  /** The repair's commit forgets only rows it holds, whose bytes it has put back. */
  lemma PipesOnFinish(s: State, e: Event)
    requires Base(s) && Enabled(s, e) && e.Finish?
    ensures var s' := Apply(s, e); forall p <- s'.pipes :: PipeOk(s', s'.pipes[p])
  {
    var s' := Apply(s, e);
    var mine := s.pipes[e.p];
    assert PipeOk(s, mine);
    forall p <- s'.pipes ensures PipeOk(s', s'.pipes[p]) {
      assert PipeOk(s, s.pipes[p]) && mine.Locks() !! s.pipes[p].Locks();
    }
  }

  lemma PipesOnQueue(s: State, e: Event)
    requires Inv(s) && Enabled(s, e)
    requires e.Start? || e.Publish? || e.Index? || e.Select? || e.LockRow? || e.LocksTaken? || e.Republish?
    ensures PipeOk(Apply(s, e), Apply(s, e).pipes[e.p])
  {
    if e.Start? { StartIsOk(s, e); } else { assert PipeOk(s, s.pipes[e.p]); }
  }

  /** Bytes and exposed rows a pipeline relies on stay through every step but three. */
  lemma RowsStay(s: State, e: Event, x: Sha)
    requires Enabled(s, e) && !e.Finish? && !e.RemoveBytes? && !e.RemoveFailed?
    ensures x in s.stored ==> x in Apply(s, e).stored
    ensures x in s.ledger && !(e.Prune? && x in Pruned(s, e.before)) ==> x in Apply(s, e).ledger
    ensures s.writes <= Apply(s, e).writes
  {
  }

  /** A pipeline that does not move itself, in a step that takes neither bytes nor rows from it. */
  lemma OtherPipes(s: State, e: Event, p: Pid)
    requires Base(s) && Enabled(s, e) && (e.Prune? ==> PruneHarmless(s, e.before))
    requires !e.Finish? && !e.RemoveBytes? && !e.RemoveFailed?
    requires p in s.pipes && p in Apply(s, e).pipes && Apply(s, e).pipes[p] == s.pipes[p]
    ensures PipeOk(Apply(s, e), s.pipes[p])
  {
    assert PipeOk(s, s.pipes[p]);
    forall x: Sha ensures (x in s.stored ==> x in Apply(s, e).stored) && s.writes <= Apply(s, e).writes
      ensures x in s.ledger && !(e.Prune? && x in Pruned(s, e.before)) ==> x in Apply(s, e).ledger
    {
      RowsStay(s, e, x);
    }
  }

  lemma PipesStep(s: State, e: Event)
    requires Inv(s) && Enabled(s, e) && (e.Prune? ==> PruneHarmless(s, e.before))
    ensures var s' := Apply(s, e); forall p <- s'.pipes :: PipeOk(s', s'.pipes[p])
  {
    if e.Finish? {
      PipesOnFinish(s, e);
    } else if e.RemoveBytes? || e.RemoveFailed? {
      PipesOnRemove(s, e);
    } else {
      var s' := Apply(s, e);
      forall p <- s'.pipes ensures PipeOk(s', s'.pipes[p]) {
        if p in s.pipes && s'.pipes[p] == s.pipes[p] {
          OtherPipes(s, e, p);
        } else {
          PipesOnQueue(s, e);
        }
      }
    }
  }

  lemma BaseStep(s: State, e: Event)
    requires Inv(s) && Enabled(s, e) && (e.Prune? ==> PruneHarmless(s, e.before))
    ensures Base(Apply(s, e))
  {
    LocksStep(s, e);
    PipesStep(s, e);
    DuesStep(s, e);
    GcsStep(s, e);
  }

  // ------------------------------------------------------------- the account

  /** x is indexed under r and at risk. */
  predicate Exposed(s: State, r: Ref, x: Sha) {
    x in IndexOf(s, r) && AtRisk(s, x)
  }

  /** Nothing is newly exposed, and no exposed row is forgotten. */
  ghost predicate ExposesNoMore(s: State, s': State) {
    forall r, x :: Exposed(s', r, x) ==> Exposed(s, r, x) && x in s'.ledger
  }

  /** What a pipeline means to the account of x from one state to the next: it reaches what it reached. */
  ghost predicate PipeCarries(s: State, s': State, q: Pid, x: Sha)
    requires q in s'.pipes
  {
    && (q in s.pipes ==> s'.pipes[q].ref == s.pipes[q].ref && (s.pipes[q].Reaches(x) ==> s'.pipes[q].Reaches(x)))
    && (s'.pipes[q].stage.Selected() ==>
          || s'.pipes[q].Reaches(x)
          || (q in s.pipes && s.pipes[q].stage.Selected() && s'.pipes[q].stage.asOf == s.pipes[q].stage.asOf))
    && (q !in s.pipes ==> !s'.pipes[q].stage.Selected())
  }

  ghost predicate OwesOn(s: State, s': State) {
    forall q <- s.owed :: q in s'.owed && s'.owed[q].ref == s.owed[q].ref && s'.owed[q].write >= s.owed[q].write
  }

  lemma AnswersOn(s: State, s': State, q: Pid, r: Ref, x: Sha)
    requires OwesOn(s, s') && Base(s') && Answers(s, q, r, x)
    requires q in s'.pipes && s'.pipes[q].ref == r ==> PipeCarries(s, s', q, x)
    ensures Answers(s', q, r, x) && s'.owed[q].write >= s.owed[q].write
  {
    assert DueOk(s', q);
  }

  /** A step that exposes nothing new, forgets no debt and no exposed row, and loses no reach, keeps the account. */
  lemma AccountCarries(s: State, s': State)
    requires AllAccounted(s) && AllCovered(s) && OwesOn(s, s') && Base(s') && ExposesNoMore(s, s')
    requires forall q, x :: q in s'.pipes && Exposed(s', s'.pipes[q].ref, x) ==> PipeCarries(s, s', q, x)
    ensures AllAccounted(s') && AllCovered(s')
  {
    forall r <- s'.index, x <- s'.index[r] | AtRisk(s', x) ensures Accounted(s', r, x) {
      assert Exposed(s', r, x) && Exposed(s, r, x) && Accounted(s, r, x);
      var q :| Answers(s, q, r, x);
      AnswersOn(s, s', q, r, x);
    }
    forall p <- s'.pipes, x <- IndexOf(s', s'.pipes[p].ref) | s'.pipes[p].stage.Selected() && AtRisk(s', x)
      ensures Covered(s', s'.pipes[p], x)
    {
      assert Exposed(s', s'.pipes[p].ref, x) && PipeCarries(s, s', p, x);
      if !s'.pipes[p].Reaches(x) {
        assert Exposed(s, s.pipes[p].ref, x) && Covered(s, s.pipes[p], x);
        var q :| Answers(s, q, s.pipes[p].ref, x) && s.owed[q].write > s.pipes[p].stage.asOf;
        AnswersOn(s, s', q, s.pipes[p].ref, x);
      }
    }
  }

  lemma ExposedIsRecorded(s: State, r: Ref, x: Sha)
    requires AllAccounted(s) && Exposed(s, r, x)
    ensures x in s.ledger
  {
    assert r in s.index && Accounted(s, r, x);
  }

  lemma RiskDoesNotGrow(s: State, e: Event, x: Sha)
    requires Enabled(s, e) && AtRisk(Apply(s, e), x)
    ensures AtRisk(s, x) || (e.Recheck? && !Referenced(s, x))
  {
  }

  lemma NoMoreExposed(s: State, e: Event)
    requires Inv(s) && Enabled(s, e) && !e.Index? && !e.Finish?
    ensures ExposesNoMore(s, Apply(s, e))
  {
    var s' := Apply(s, e);
    forall r, x | Exposed(s', r, x) ensures Exposed(s, r, x) && x in s'.ledger {
      RiskDoesNotGrow(s, e, x);
      assert x in IndexOf(s, r) && r in s.index;
      ExposedIsRecorded(s, r, x);
    }
  }

  lemma MyPipeCarries(s: State, e: Event, x: Sha)
    requires Inv(s) && Enabled(s, e)
    requires e.Start? || e.Publish? || e.Select? || e.LockRow? || e.LocksTaken? || e.Republish?
    requires Exposed(s, Apply(s, e).pipes[e.p].ref, x)
    ensures PipeCarries(s, Apply(s, e), e.p, x)
  {
    ExposedIsRecorded(s, Apply(s, e).pipes[e.p].ref, x);
  }

  lemma PipesCarry(s: State, e: Event, q: Pid, x: Sha)
    requires Inv(s) && Enabled(s, e) && !e.Index? && !e.Finish?
    requires q in Apply(s, e).pipes && Exposed(s, Apply(s, e).pipes[q].ref, x)
    ensures PipeCarries(s, Apply(s, e), q, x)
  {
    if q !in s.pipes || Apply(s, e).pipes[q] != s.pipes[q] { MyPipeCarries(s, e, x); }
  }

  lemma AccountQuiet(s: State, e: Event)
    requires Inv(s) && Enabled(s, e) && !e.Index? && !e.Finish? && Base(Apply(s, e))
    ensures AllAccounted(Apply(s, e)) && AllCovered(Apply(s, e))
  {
    var s' := Apply(s, e);
    NoMoreExposed(s, e);
    forall q, x | q in s'.pipes && Exposed(s', s'.pipes[q].ref, x) ensures PipeCarries(s, s', q, x) {
      PipesCarry(s, e, q, x);
    }
    AccountCarries(s, s');
  }

  /** The index write itself owes whatever the new index exposes. */
  lemma AccountIndex(s: State, e: Event)
    requires Inv(s) && Enabled(s, e) && e.Index? && Base(Apply(s, e))
    ensures AllAccounted(Apply(s, e)) && AllCovered(Apply(s, e))
  {
    var s' := Apply(s, e);
    var mine := s.pipes[e.p].ref;
    forall r <- s'.index, x <- s'.index[r] | AtRisk(s', x) ensures Accounted(s', r, x) {
      if r == mine {
        IndexedIsRecorded(s, e, x);
        assert Answers(s', e.p, r, x);
      } else {
        assert AtRisk(s, x) && Accounted(s, r, x);
        var q :| Answers(s, q, r, x);
        OtherAnswers(s, e, q, r, x);
      }
    }
    forall p <- s'.pipes, x <- IndexOf(s', s'.pipes[p].ref) | s'.pipes[p].stage.Selected() && AtRisk(s', x)
      ensures Covered(s', s'.pipes[p], x)
    {
      if s'.pipes[p].ref == mine {
        assert PipeOk(s, s.pipes[p]);
        assert Answers(s', e.p, mine, x) && s'.owed[e.p].write > s'.pipes[p].stage.asOf;
      } else {
        OtherCovers(s, e, p, x);
      }
    }
  }

  lemma IndexedIsRecorded(s: State, e: Event, x: Sha)
    requires Base(s) && Enabled(s, e) && e.Index? && x in s.pipes[e.p].tree && AtRisk(Apply(s, e), x)
    ensures x in s.ledger
  {
    assert PipeOk(s, s.pipes[e.p]);
  }

  lemma OtherAnswers(s: State, e: Event, q: Pid, r: Ref, x: Sha)
    requires Base(s) && Enabled(s, e) && e.Index? && Answers(s, q, r, x) && r != s.pipes[e.p].ref
    ensures Answers(Apply(s, e), q, r, x) && Apply(s, e).owed[q] == s.owed[q]
  {
    assert DueOk(s, q);
  }

  lemma OtherCovers(s: State, e: Event, p: Pid, x: Sha)
    requires Inv(s) && Enabled(s, e) && e.Index? && p in s.pipes && s.pipes[p].stage.Selected()
    requires s.pipes[p].ref != s.pipes[e.p].ref && x in IndexOf(s, s.pipes[p].ref) && AtRisk(s, x)
    ensures Covered(Apply(s, e), s.pipes[p], x)
  {
    assert Covered(s, s.pipes[p], x);
    if !s.pipes[p].Reaches(x) {
      var q :| Answers(s, q, s.pipes[p].ref, x) && s.owed[q].write > s.pipes[p].stage.asOf;
      OtherAnswers(s, e, q, s.pipes[p].ref, x);
    }
  }

  /** What a finishing repair does not reach, a later write of the ref still owes. */
  lemma FinishLeaves(s: State, e: Event, r: Ref, x: Sha, after: int, q: Pid) returns (h: Pid)
    requires Inv(s) && Enabled(s, e) && e.Finish? && Exposed(s, r, x)
    requires Answers(s, q, r, x) && s.owed[q].write > after
    ensures Answers(Apply(s, e), h, r, x) && s.owed[h].write > after
    ensures Apply(s, e).owed[h] == s.owed[h]
  {
    var mine := s.pipes[e.p];
    h := q;
    if s.owed[q].ref == mine.ref && s.owed[q].write <= mine.stage.asOf {
      LockedIsSafe(s, e, x);
      assert Covered(s, mine, x);
      h :| Answers(s, h, r, x) && s.owed[h].write > mine.stage.asOf;
    }
    assert DueOk(s, h);
  }

  /** A row the repair holds is of a blob that is back, and that no collector can be after. */
  lemma LockedIsSafe(s: State, e: Event, x: Sha)
    requires Base(s) && Enabled(s, e) && e.Finish? && AtRisk(s, x)
    ensures !s.pipes[e.p].Reaches(x)
  {
    var mine := s.pipes[e.p];
    assert PipeOk(s, mine);
    forall g <- s.gcs ensures mine.Locks() !! s.gcs[g].Locks() {
    }
  }

  lemma AccountFinish(s: State, e: Event)
    requires Inv(s) && Enabled(s, e) && e.Finish? && Base(Apply(s, e))
    ensures AllAccounted(Apply(s, e)) && AllCovered(Apply(s, e))
  {
    var s' := Apply(s, e);
    forall r <- s'.index, x <- s'.index[r] | AtRisk(s', x) ensures Accounted(s', r, x) {
      assert Exposed(s, r, x) && Accounted(s, r, x);
      LockedIsSafe(s, e, x);
      var q :| Answers(s, q, r, x);
      var h := FinishLeaves(s, e, r, x, -1, q);
    }
    forall p <- s'.pipes, x <- IndexOf(s', s'.pipes[p].ref) | s'.pipes[p].stage.Selected() && AtRisk(s', x)
      ensures Covered(s', s'.pipes[p], x)
    {
      FinishCovers(s, e, p, x);
    }
  }

  lemma FinishCovers(s: State, e: Event, p: Pid, x: Sha)
    requires Inv(s) && Enabled(s, e) && e.Finish? && p in s.pipes && p != e.p && s.pipes[p].stage.Selected()
    requires x in IndexOf(s, s.pipes[p].ref) && AtRisk(s, x)
    ensures Covered(Apply(s, e), s.pipes[p], x)
  {
    assert Covered(s, s.pipes[p], x);
    if !s.pipes[p].Reaches(x) {
      var r, asOf := s.pipes[p].ref, s.pipes[p].stage.asOf;
      var q :| Answers(s, q, r, x) && s.owed[q].write > asOf;
      var h := FinishLeaves(s, e, r, x, asOf, q);
      assert Answers(Apply(s, e), h, r, x);
    }
  }

  /** Every step keeps the invariant, a prune exactly as long as it is harmless. */
  lemma InvStep(s: State, e: Event)
    requires Inv(s) && Enabled(s, e) && (e.Prune? ==> PruneHarmless(s, e.before))
    ensures Inv(Apply(s, e))
  {
    BaseStep(s, e);
    if e.Index? {
      AccountIndex(s, e);
    } else if e.Finish? {
      AccountFinish(s, e);
    } else {
      AccountQuiet(s, e);
    }
  }

  // ------------------------------------------------------------------ runs

  predicate Run(s: State, es: seq<Event>)
    decreases |es|
  {
    es == [] || (Enabled(s, es[0]) && Run(Apply(s, es[0]), es[1..]))
  }

  function After(s: State, es: seq<Event>): State
    requires Run(s, es)
    decreases |es|
  {
    if es == [] then s else After(Apply(s, es[0]), es[1..])
  }

  lemma RunCons(s: State, e: Event, es: seq<Event>)
    requires Enabled(s, e) && Run(Apply(s, e), es)
    ensures Run(s, [e] + es) && After(s, [e] + es) == After(Apply(s, e), es)
  {
    assert ([e] + es)[1..] == es;
  }

  predicate NoPrune(es: seq<Event>) {
    forall e <- es :: !e.Prune?
  }

  lemma {:induction false} RunsWithoutPruneKeep(s: State, es: seq<Event>)
    requires Inv(s) && Run(s, es) && NoPrune(es)
    ensures Inv(After(s, es))
    decreases |es|
  {
    if es != [] {
      InvStep(s, es[0]);
      RunsWithoutPruneKeep(Apply(s, es[0]), es[1..]);
    }
  }

  /** A pipeline whose blob x has gone unrecorded settles the rest of its tree and indexes x regardless. */
  lemma {:induction false} IndexesLostBlob(s: State, p: Pid, x: Sha) returns (es: seq<Event>)
    requires At(s, p, Publishing) && x in s.pipes[p].settled && s.pipes[p].settled <= s.pipes[p].tree
    requires x !in s.stored && x !in s.ledger
    ensures Run(s, es) && NoPrune(es)
    ensures var t := After(s, es);
            s.pipes[p].ref in t.index && x in t.index[s.pipes[p].ref] && x !in t.stored && x !in t.ledger
    decreases s.pipes[p].tree - s.pipes[p].settled
  {
    var rest := s.pipes[p].tree - s.pipes[p].settled;
    if rest == {} {
      es := [Index(p)];
      assert forall y <- s.pipes[p].tree :: y in s.pipes[p].settled || y in rest;
      assert s.pipes[p].settled == s.pipes[p].tree;
      RunCons(s, Index(p), []);
      assert es == [Index(p)] + [];
    } else {
      var y :| y in rest;
      var s' := Apply(s, Publish(p, y));
      assert s'.pipes[p].tree - s'.pipes[p].settled == rest - {y};
      var tail := IndexesLostBlob(s', p, x);
      RunCons(s, Publish(p, y), tail);
      es := [Publish(p, y)] + tail;
    }
  }

  /**
    Exactly when a prune is safe: the promise survives every continuation if and only if no
    running pipeline has settled a missing blob whose row this prune takes.
  */
  lemma PruneIsSafeExactlyWhenHarmless(s: State, before: nat)
    requires Inv(s)
    ensures PruneHarmless(s, before) <==>
            forall es :: Run(Apply(s, Prune(before)), es) && NoPrune(es)
                         ==> Promise(After(Apply(s, Prune(before)), es))
  {
    var s1 := Apply(s, Prune(before));
    if PruneHarmless(s, before) {
      InvStep(s, Prune(before));
      forall es | Run(s1, es) && NoPrune(es) ensures Promise(After(s1, es)) {
        RunsWithoutPruneKeep(s1, es);
        InvPromises(After(s1, es));
      }
    } else {
      var p, x :| p in s.pipes && x in Pruned(s, before) && s.pipes[p].stage.Publishing?
                  && x in s.pipes[p].settled && x !in s.stored;
      assert PipeOk(s, s.pipes[p]);
      var es := IndexesLostBlob(s1, p, x);
      assert !Promise(After(s1, es));
    }
  }

  // ------------------------------------------------------- the grace, in time

  /** deletionLedgerGrace, in seconds. */
  const LEDGER_GRACE: nat := 24 * 3600

  /** Nobody but p is settling the blobs of a tree of r. */
  predicate SettlesAlone(s: State, r: Ref, but: set<Pid>) {
    forall q <- s.pipes :: s.pipes[q].ref == r && s.pipes[q].stage.Publishing? ==> q in but
  }

  /**
    The timing a deployment has to keep: a collector removes bytes within `lag` of its intent,
    no pipeline is still settling blobs `push` after it began when a prune runs, prunes
    apply the grace, and a ref's index is neither dropped nor replaced by another while a
    pipeline is settling the blobs of that ref.
  */
  ghost predicate Timely(s: State, e: Event, push: nat, lag: nat)
    requires Enabled(s, e)
  {
    match e
    case RemoveBytes(g) => s.now <= s.gcs[g].at + lag
    case RemoveFailed(g, _) => s.now <= s.gcs[g].at + lag
    case Prune(before) =>
      before + LEDGER_GRACE <= s.now
      && forall p <- s.pipes :: s.pipes[p].stage.Publishing? ==> s.now <= s.pipes[p].start + push
    case Index(p) => SettlesAlone(s, s.pipes[p].ref, {p})
    case DropIndex(r) => SettlesAlone(s, r, {})
    case _ => true
  }

  ghost predicate TimePipe(s: State, p: Pipe, lag: nat) {
    && p.start <= s.now
    && (p.stage.Publishing? ==>
          forall x <- p.settled :: x !in s.stored ==>
            x in IndexOf(s, p.ref) || (x in s.ledger && p.start <= s.ledger[x] + lag))
  }

  ghost predicate TimeGc(s: State, c: Collect) {
    c.at <= s.now && (c.sha in s.ledger ==> c.at <= s.ledger[c.sha])
  }

  ghost predicate TimeInv(s: State, lag: nat) {
    && (forall p <- s.pipes :: TimePipe(s, s.pipes[p], lag))
    && (forall g <- s.gcs :: TimeGc(s, s.gcs[g]))
    && (forall x <- s.ledger :: s.ledger[x] <= s.now)
  }

  /** A settled blob that has gone was recorded recently enough to outlast a timely prune. */
  lemma TimelyPruneIsHarmless(s: State, before: nat, push: nat, lag: nat)
    requires Inv(s) && TimeInv(s, lag) && push + lag <= 24 * 3600
    requires Timely(s, Prune(before), push, lag)
    ensures PruneHarmless(s, before)
  {
    forall p <- s.pipes, x <- Pruned(s, before)
      | s.pipes[p].stage.Publishing? && x in s.pipes[p].settled
      ensures x in s.stored
    {
      assert TimePipe(s, s.pipes[p], lag) && PipeOk(s, s.pipes[p]);
    }
  }

  /** A collector that removes bytes in time recorded them recently. */
  lemma TimeOnRemove(s: State, e: Event, push: nat, lag: nat, p: Pid)
    requires Inv(s) && TimeInv(s, lag) && Enabled(s, e) && Timely(s, e, push, lag)
    requires (e.RemoveBytes? || e.RemoveFailed?) && p in s.pipes
    ensures TimePipe(Apply(s, e), s.pipes[p], lag)
  {
    assert TimePipe(s, s.pipes[p], lag) && TimeGc(s, s.gcs[e.g]);
  }

  lemma TimeOnForget(s: State, e: Event, push: nat, lag: nat, p: Pid)
    requires Inv(s) && TimeInv(s, lag) && Enabled(s, e) && Timely(s, e, push, lag)
    requires e.Prune? ==> PruneHarmless(s, e.before)
    requires (e.Finish? || e.Prune?) && p in Apply(s, e).pipes
    ensures TimePipe(Apply(s, e), s.pipes[p], lag)
  {
    if e.Finish? { TimeOnFinish(s, e, lag, p); } else { TimeOnPrune(s, e, push, lag, p); }
  }

  lemma TimeOnFinish(s: State, e: Event, lag: nat, p: Pid)
    requires Inv(s) && TimeInv(s, lag) && Enabled(s, e) && e.Finish? && p in Apply(s, e).pipes
    ensures TimePipe(Apply(s, e), s.pipes[p], lag)
  {
    assert TimePipe(s, s.pipes[p], lag) && PipeOk(s, s.pipes[e.p]);
  }

  lemma TimeOnPrune(s: State, e: Event, push: nat, lag: nat, p: Pid)
    requires Inv(s) && TimeInv(s, lag) && Enabled(s, e) && e.Prune? && PruneHarmless(s, e.before) && p in s.pipes
    ensures TimePipe(Apply(s, e), s.pipes[p], lag)
  {
    assert TimePipe(s, s.pipes[p], lag) && PipeOk(s, s.pipes[p]);
  }

  /** The settled part of a tree keeps its reference, because nobody replaces the index under it. */
  lemma TimeOnReindex(s: State, e: Event, push: nat, lag: nat, p: Pid)
    requires Inv(s) && TimeInv(s, lag) && Enabled(s, e) && Timely(s, e, push, lag)
    requires (e.Index? || e.DropIndex?) && p in s.pipes && (e.Index? ==> p != e.p)
    ensures TimePipe(Apply(s, e), s.pipes[p], lag)
  {
    assert TimePipe(s, s.pipes[p], lag);
  }

  lemma TimeOnOwn(s: State, e: Event, lag: nat, p: Pid)
    requires TimeInv(s, lag) && Enabled(s, e)
    requires p in Apply(s, e).pipes && (p !in s.pipes || Apply(s, e).pipes[p] != s.pipes[p])
    ensures TimePipe(Apply(s, e), Apply(s, e).pipes[p], lag)
  {
    if p in s.pipes { assert TimePipe(s, s.pipes[p], lag); }
  }

  lemma TimeOnOther(s: State, e: Event, lag: nat, p: Pid)
    requires TimeInv(s, lag) && Enabled(s, e) && p in s.pipes
    requires !e.RemoveBytes? && !e.RemoveFailed? && !e.Finish? && !e.Prune? && !e.Index? && !e.DropIndex?
    ensures TimePipe(Apply(s, e), s.pipes[p], lag)
  {
    assert TimePipe(s, s.pipes[p], lag);
  }

  lemma TimePipeStep(s: State, e: Event, push: nat, lag: nat, p: Pid)
    requires Inv(s) && TimeInv(s, lag) && Enabled(s, e) && Timely(s, e, push, lag)
    requires e.Prune? ==> PruneHarmless(s, e.before)
    requires p in Apply(s, e).pipes
    ensures TimePipe(Apply(s, e), Apply(s, e).pipes[p], lag)
  {
    if p !in s.pipes || Apply(s, e).pipes[p] != s.pipes[p] {
      TimeOnOwn(s, e, lag, p);
    } else if e.RemoveBytes? || e.RemoveFailed? {
      TimeOnRemove(s, e, push, lag, p);
    } else if e.Finish? || e.Prune? {
      TimeOnForget(s, e, push, lag, p);
    } else if e.Index? || e.DropIndex? {
      TimeOnReindex(s, e, push, lag, p);
    } else {
      TimeOnOther(s, e, lag, p);
    }
  }

  /** A recorded time only grows. */
  lemma LedgerTimesGrow(s: State, e: Event, x: Sha)
    requires Enabled(s, e) && x in Apply(s, e).ledger
    ensures s.now <= Apply(s, e).now
    ensures (x in s.ledger && s.ledger[x] <= Apply(s, e).ledger[x]) || Apply(s, e).ledger[x] == s.now
  {
    if e.Intent? {
      assert Apply(s, e).ledger == s.ledger[e.x := s.now] && Apply(s, e).now == s.now;
    } else {
      OnlyIntentsRecord(s, e);
      assert (x, Apply(s, e).ledger[x]) in Apply(s, e).ledger.Items;
    }
  }

  lemma TimeGcOwn(s: State, e: Event, g: Pid)
    requires Enabled(s, e) && MovesGc(e) && g in Apply(s, e).gcs
    ensures g in s.gcs ==> Apply(s, e).gcs[g].at == s.gcs[g].at && Apply(s, e).gcs[g].sha == s.gcs[g].sha
    ensures g !in s.gcs ==> Apply(s, e).gcs[g].at == s.now
  {
    if g == e.g { GcMoves(s, e); } else { OtherGcStays(s, e, g); }
  }

  lemma TimeGcStep(s: State, e: Event, lag: nat)
    requires TimeInv(s, lag) && Enabled(s, e)
    ensures var s' := Apply(s, e); forall g <- s'.gcs :: TimeGc(s', s'.gcs[g])
  {
    var s' := Apply(s, e);
    forall g <- s'.gcs ensures TimeGc(s', s'.gcs[g]) {
      if MovesGc(e) { TimeGcOwn(s, e, g); } else { GcsStay(s, e); }
      if s'.gcs[g].sha in s'.ledger { LedgerTimesGrow(s, e, s'.gcs[g].sha); } else { LaterStill(s, e); }
      assert g in s.gcs ==> TimeGc(s, s.gcs[g]);
    }
  }

  lemma LaterStill(s: State, e: Event)
    requires Enabled(s, e)
    ensures s.now <= Apply(s, e).now
  {
  }

  lemma LedgerNotLate(s: State, e: Event, lag: nat)
    requires TimeInv(s, lag) && Enabled(s, e)
    ensures forall x <- Apply(s, e).ledger :: Apply(s, e).ledger[x] <= Apply(s, e).now
  {
    if e.Intent? {
      assert Apply(s, e).ledger == s.ledger[e.x := s.now] && Apply(s, e).now == s.now;
    } else {
      OnlyIntentsRecord(s, e);
    }
  }

  lemma OnlyIntentsRecord(s: State, e: Event)
    requires Enabled(s, e) && !e.Intent?
    ensures Apply(s, e).ledger.Items <= s.ledger.Items && s.now <= Apply(s, e).now
  {
  }

  lemma TimeStep(s: State, e: Event, push: nat, lag: nat)
    requires Inv(s) && TimeInv(s, lag) && Enabled(s, e) && Timely(s, e, push, lag)
    requires e.Prune? ==> PruneHarmless(s, e.before)
    ensures TimeInv(Apply(s, e), lag)
  {
    var s' := Apply(s, e);
    forall p <- s'.pipes ensures TimePipe(s', s'.pipes[p], lag) {
      TimePipeStep(s, e, push, lag, p);
    }
    TimeGcStep(s, e, lag);
    LedgerNotLate(s, e, lag);
  }

  /** A step that takes a ref's index away or replaces it. */
  predicate Replaces(e: Event) {
    e.DropIndex? || e.Index?
  }

  /** Every step is timely; with anyIndex, an index may also be dropped or replaced under a pipeline of its ref. */
  ghost predicate AlwaysTimely(s: State, es: seq<Event>, push: nat, lag: nat, anyIndex: bool)
    requires Run(s, es)
    decreases |es|
  {
    es != [] ==>
      && (Timely(s, es[0], push, lag) || (anyIndex && Replaces(es[0])))
      && AlwaysTimely(Apply(s, es[0]), es[1..], push, lag, anyIndex)
  }

  /**
    In any interleaving of collectors, pushes, crashes, parked jobs, ref deletions and prunes
    that keeps the timing, with any number of pipelines on a ref, a missing indexed sha always
    has its ledger row and somebody who owes its ref the repair.
  */
  lemma {:induction false} TimelyRunsKeepThePromise(s: State, es: seq<Event>, push: nat, lag: nat)
    requires Inv(s) && TimeInv(s, lag) && push + lag <= 24 * 3600
    requires Run(s, es) && AlwaysTimely(s, es, push, lag, false)
    ensures Inv(After(s, es)) && Promise(After(s, es))
    decreases |es|
  {
    if es == [] {
      InvPromises(s);
    } else {
      if es[0].Prune? { TimelyPruneIsHarmless(s, es[0].before, push, lag); }
      InvStep(s, es[0]);
      TimeStep(s, es[0], push, lag);
      TimelyRunsKeepThePromise(Apply(s, es[0]), es[1..], push, lag);
    }
  }

  /** From an empty instance: a ref nobody owes anything, parked jobs included, has all of its bytes. */
  lemma NothingOwedNothingMissing(es: seq<Event>, push: nat, lag: nat, r: Ref)
    requires push + lag <= 24 * 3600 && Run(EMPTY, es) && AlwaysTimely(EMPTY, es, push, lag, false)
    requires forall q <- After(EMPTY, es).owed :: After(EMPTY, es).owed[q].ref != r
    ensures IndexOf(After(EMPTY, es), r) <= After(EMPTY, es).stored.Keys
  {
    TimelyRunsKeepThePromise(EMPTY, es, push, lag);
  }

  /** A repair that finishes settles what its ref owed when it selected: jobs parked by then need no retry. */
  lemma FinishSettles(s: State, p: Pid, q: Pid)
    requires Base(s) && Enabled(s, Finish(p)) && q in s.owed && s.owed[q].ref == s.pipes[p].ref
    ensures q in Apply(s, Finish(p)).owed ==> q != p && s.owed[q].write > s.pipes[p].stage.asOf
  {
    assert DueOk(s, q);
  }

  // ------------------------------------------------------- the grace of gc

  /** No gc run knows of x but by its time t, and none is collecting it. */
  predicate Unscreened(s: State, x: Sha, t: nat) {
    && x in s.stored && s.stored[x] == t
    && (forall g <- s.scans ::
          match s.scans[g]
          case Listed(objects) => x in objects ==> objects[x] == t
          case Screened(candidates) => x !in candidates)
    && (forall g <- s.gcs :: s.gcs[g].sha != x)
  }

  lemma UnscreenedScans(s: State, e: Event, x: Sha, t: nat, g: Pid)
    requires Enabled(s, e) && Unscreened(s, x, t) && s.now <= t + 24 * 3600 && g in ScansAfter(s, e)
    ensures match ScansAfter(s, e)[g]
            case Listed(objects) => x in objects ==> objects[x] == t
            case Screened(candidates) => x !in candidates
  {
    if g in s.scans && s.scans[g].Listed? && e == Screen(g) {
      assert x !in Candidates(s, s.scans[g].objects);
    }
  }

  lemma UnscreenedGcs(s: State, e: Event, x: Sha, t: nat)
    requires Enabled(s, e) && Unscreened(s, x, t)
    ensures forall g <- GcsAfter(s, e) :: GcsAfter(s, e)[g].sha != x
    ensures x in StoredAfter(s, e) && StoredAfter(s, e)[x] == t
  {
  }

  lemma UnscreenedStep(s: State, e: Event, x: Sha, t: nat)
    requires Enabled(s, e) && Unscreened(s, x, t) && s.now <= t + 24 * 3600
    ensures Unscreened(Apply(s, e), x, t)
  {
    UnscreenedGcs(s, e, x, t);
    forall g <- ScansAfter(s, e)
      ensures match ScansAfter(s, e)[g]
              case Listed(objects) => x in objects ==> objects[x] == t
              case Screened(candidates) => x !in candidates
    {
      UnscreenedScans(s, e, x, t, g);
    }
  }

  lemma {:induction false} RunsGoForward(s: State, es: seq<Event>)
    requires Run(s, es)
    ensures s.now <= After(s, es).now
    decreases |es|
  {
    if es != [] {
      LaterStill(s, es[0]);
      RunsGoForward(Apply(s, es[0]), es[1..]);
    }
  }

  lemma {:induction false} UnscreenedStays(s: State, es: seq<Event>, x: Sha, t: nat)
    requires Run(s, es) && Unscreened(s, x, t) && After(s, es).now <= t + 24 * 3600
    ensures Unscreened(After(s, es), x, t)
    decreases |es|
  {
    if es != [] {
      RunsGoForward(Apply(s, es[0]), es[1..]);
      LaterStill(s, es[0]);
      UnscreenedStep(s, es[0], x, t);
      UnscreenedStays(Apply(s, es[0]), es[1..], x, t);
    }
  }

  /**
    The day gc leaves a blob alone: whatever runs, indexed or not, a blob is still there, as
    written, a day after it was written, unless a gc run was already under way at the start.
  */
  lemma YoungBlobsStay(s: State, es: seq<Event>, x: Sha)
    requires s.scans == map[] && s.gcs == map[] && x in s.stored
    requires Run(s, es) && After(s, es).now <= s.stored[x] + 24 * 3600
    ensures x in After(s, es).stored && After(s, es).stored[x] == s.stored[x]
  {
    UnscreenedStays(s, es, x, s.stored[x]);
  }
}
