/**
  The lfs/ layer as a protocol: uploads, links, unlinks and the two LFS
  collectors of `thinkingface gc` run concurrently against one bucket and one
  database. A transaction is a few small steps; between two of them any other
  actor may move, fail or disappear. Uncommitted rows are invisible, so the maps
  below hold what is committed, and a row lock is an open transaction naming the oid.
*/
module LfsProtocol {
  type Oid = string
  type Repo = nat
  type Pid = nat

  /** Where a collecting transaction stands once it holds its claim. */
  datatype CollectPhase = Claimed | Removed

  /** One open transaction. Each holds the lock of the oids `Locks` lists. */
  datatype Txn =
    | Collecting(oid: Oid, untracked: bool, phase: CollectPhase)
    | Recording(repo: Repo, oid: Oid, size: nat, confirmed: bool)
    | Linking(repo: Repo, entitled: set<Oid>, locked: set<Oid>)
  {
    function Locks(): set<Oid> {
      match this
      case Collecting(oid, _, _) => {oid}
      case Recording(_, oid, _, _) => {oid}
      case Linking(_, _, locked) => locked
    }
  }

  datatype State = State(
    stored: map<Oid, nat>,       // lfs/ bytes, by oid, with their length
    rows: map<Oid, nat>,         // lfs_objects, with the recorded size
    links: set<(Repo, Oid)>,     // repo_lfs_objects
    open: map<Pid, Txn>)

  const EMPTY: State := State(map[], map[], {}, map[])

  predicate Free(s: State, oid: Oid) {
    forall p <- s.open :: oid !in s.open[p].Locks()
  }

  predicate Linked(s: State, oid: Oid) {
    exists l <- s.links :: l.1 == oid
  }

  /** One step of one actor. */
  datatype Event =
    | Put(oid: Oid, size: nat)
      // an upload copies verified bytes to their content-addressed key
    | BeginRecord(p: Pid, repo: Repo, oid: Oid, size: nat)
      // RecordLFSObject: the upsert takes the row lock
    | Confirm(p: Pid)
      // confirmPresent under that lock; a miss rolls back with ErrLFSObjectGone
    | CommitRecord(p: Pid)
    | BeginLink(p: Pid, repo: Repo, declared: map<Oid, set<nat>>)
      // LinkLFSObjects: locks the rows it finds and keeps those whose size was declared
    | CommitLink(p: Pid)
    | ClaimOrphan(p: Pid, oid: Oid)
      // DeleteOrphanedLFSObject: SELECT .. FOR UPDATE with the NOT EXISTS re-check
    | ClaimUntracked(p: Pid, oid: Oid)
      // DeleteUntrackedLFSObject: INSERT .. ON CONFLICT DO NOTHING
    | RemoveBytes(p: Pid)
    | RemoveFailed(p: Pid, gone: bool)
      // the bucket answered an error; the bytes may or may not have gone
    | CommitCollect(p: Pid)
    | Abort(p: Pid)
      // crash, lost connection, failed commit: the transaction rolls back
    | Unlink(dropped: set<(Repo, Oid)>)
      // DeleteRepo's cascade or PruneRepoLFSLinks; takes no lfs_objects lock

  function Entitled(s: State, declared: map<Oid, set<nat>>): set<Oid> {
    set o | o in declared && o in s.rows && s.rows[o] in declared[o]
  }

  predicate Enabled(s: State, e: Event) {
    match e
    case Put(oid, size) => oid in s.stored ==> s.stored[oid] == size
    case BeginRecord(p, _, oid, _) => p !in s.open && Free(s, oid)
    case Confirm(p) => p in s.open && s.open[p].Recording? && !s.open[p].confirmed
    case CommitRecord(p) => p in s.open && s.open[p].Recording? && s.open[p].confirmed
    case BeginLink(p, _, declared) =>
      p !in s.open && forall o <- declared :: o in s.rows ==> Free(s, o)
    case CommitLink(p) => p in s.open && s.open[p].Linking?
    case ClaimOrphan(p, oid) => p !in s.open && Free(s, oid) && oid in s.rows && !Linked(s, oid)
    case ClaimUntracked(p, oid) => p !in s.open && Free(s, oid) && oid !in s.rows
    case RemoveBytes(p) => p in s.open && s.open[p].Collecting? && s.open[p].phase.Claimed?
    case RemoveFailed(p, _) => p in s.open && s.open[p].Collecting? && s.open[p].phase.Claimed?
    case CommitCollect(p) => p in s.open && s.open[p].Collecting? && s.open[p].phase.Removed?
    case Abort(p) => p in s.open
    case Unlink(_) => true
  }

  function Apply(s: State, e: Event): State
    requires Enabled(s, e)
  {
    match e
    case Put(oid, size) => s.(stored := s.stored[oid := size])
    case BeginRecord(p, repo, oid, size) => s.(open := s.open[p := Recording(repo, oid, size, false)])
    case Confirm(p) =>
      var t := s.open[p];
      if t.oid in s.stored && s.stored[t.oid] == t.size
      then s.(open := s.open[p := t.(confirmed := true)])
      else s.(open := s.open - {p})
    case CommitRecord(p) =>
      var t := s.open[p];
      s.(rows := if t.oid in s.rows then s.rows else s.rows[t.oid := t.size],
         links := s.links + {(t.repo, t.oid)},
         open := s.open - {p})
    case BeginLink(p, repo, declared) =>
      s.(open := s.open[p := Linking(repo, Entitled(s, declared), set o | o in declared && o in s.rows)])
    case CommitLink(p) =>
      var t := s.open[p];
      s.(links := s.links + (set o | o in t.entitled :: (t.repo, o)), open := s.open - {p})
    case ClaimOrphan(p, oid) => s.(open := s.open[p := Collecting(oid, false, Claimed)])
    case ClaimUntracked(p, oid) => s.(open := s.open[p := Collecting(oid, true, Claimed)])
    case RemoveBytes(p) =>
      var t := s.open[p];
      s.(stored := s.stored - {t.oid}, open := s.open[p := t.(phase := Removed)])
    case RemoveFailed(p, gone) =>
      s.(stored := if gone then s.stored - {s.open[p].oid} else s.stored, open := s.open - {p})
    case CommitCollect(p) => s.(rows := s.rows - {s.open[p].oid}, open := s.open - {p})
    case Abort(p) => s.(open := s.open - {p})
    case Unlink(dropped) => s.(links := s.links - dropped)
  }

  /** What the layer promises: an oid some repository links to has a row and its bytes. */
  ghost predicate Safe(s: State) {
    forall l <- s.links :: l.1 in s.stored && l.1 in s.rows
  }

  /** Every oid LinkLFSObjects is about to link still has its bytes. */
  predicate Backed(s: State, e: Event) {
    e.BeginLink? ==> Entitled(s, e.declared) <= s.stored.Keys
  }

  /** The delete of a tracked object was cut off after the bytes went and before the row did. */
  predicate Interrupts(s: State, e: Event) {
    match e
    case RemoveFailed(p, gone) => gone && p in s.open && s.open[p].Collecting? && s.open[p].oid in s.rows
    case Abort(p) =>
      p in s.open && s.open[p].Collecting? && s.open[p].phase.Removed?
      && s.open[p].oid in s.rows && s.open[p].oid !in s.stored
    case _ => false
  }

  // ------------------------------------------------------------------ runs

  predicate Run(s: State, es: seq<Event>)
    decreases |es|
  {
    es == [] || (Enabled(s, es[0]) && Run(Apply(s, es[0]), es[1..]))
  }

  function After(s: State, es: seq<Event>): State
    requires Run(s, es)
    decreases |es|
  {
    if es == [] then s else After(Apply(s, es[0]), es[1..])
  }

  lemma RunCons(s: State, e: Event, es: seq<Event>)
    requires Enabled(s, e) && Run(Apply(s, e), es)
    ensures Run(s, [e] + es) && After(s, [e] + es) == After(Apply(s, e), es)
  {
    assert ([e] + es)[1..] == es;
  }

  ghost predicate AlwaysBacked(s: State, es: seq<Event>)
    requires Run(s, es)
    decreases |es|
  {
    es == [] || (Backed(s, es[0]) && AlwaysBacked(Apply(s, es[0]), es[1..]))
  }

  ghost predicate NeverInterrupted(s: State, es: seq<Event>)
    requires Run(s, es)
    decreases |es|
  {
    es == [] || (!Interrupts(s, es[0]) && NeverInterrupted(Apply(s, es[0]), es[1..]))
  }

  // ------------------------------------------------------------- invariant

  /** What an open transaction may rely on while it holds its locks. */
  ghost predicate TxnOk(s: State, t: Txn) {
    match t
    case Collecting(oid, untracked, _) => !Linked(s, oid) && (untracked <==> oid !in s.rows)
    case Recording(_, oid, _, confirmed) => confirmed ==> oid in s.stored
    case Linking(_, entitled, locked) =>
      entitled <= locked && entitled <= s.rows.Keys && entitled <= s.stored.Keys
  }

  ghost predicate Exclusive(s: State) {
    forall p <- s.open, q <- s.open :: p != q ==> s.open[p].Locks() !! s.open[q].Locks()
  }

  ghost predicate Inv(s: State) {
    Safe(s) && Exclusive(s) && forall p <- s.open :: TxnOk(s, s.open[p])
  }

  lemma InvPut(s: State, e: Event)
    requires Inv(s) && e.Put? && Enabled(s, e)
    ensures Inv(Apply(s, e))
  {
    var s' := Apply(s, e);
    forall p <- s'.open ensures TxnOk(s', s'.open[p]) {
      assert TxnOk(s, s.open[p]);
    }
  }

  lemma InvBegin(s: State, e: Event)
    requires Inv(s) && Enabled(s, e) && Backed(s, e)
    requires e.BeginRecord? || e.BeginLink? || e.ClaimOrphan? || e.ClaimUntracked?
    ensures Inv(Apply(s, e))
  {
    var s' := Apply(s, e);
    var t := s'.open[e.p];
    forall q <- s.open ensures t.Locks() !! s.open[q].Locks() && TxnOk(s', s.open[q]) {
      assert TxnOk(s, s.open[q]);
    }
    assert TxnOk(s', t);
  }

  lemma InvRollBack(s: State, e: Event)
    requires Inv(s) && Enabled(s, e) && (e.Abort? || e.Confirm?)
    ensures Inv(Apply(s, e))
  {
    var s' := Apply(s, e);
    forall q <- s'.open | q != e.p ensures TxnOk(s', s'.open[q]) {
      assert TxnOk(s, s.open[q]);
    }
  }

  lemma InvCommitLinks(s: State, e: Event)
    requires Inv(s) && Enabled(s, e) && (e.CommitRecord? || e.CommitLink?)
    ensures Inv(Apply(s, e))
  {
    var s' := Apply(s, e);
    var t := s.open[e.p];
    assert TxnOk(s, t);
    forall q <- s'.open ensures TxnOk(s', s'.open[q]) {
      assert TxnOk(s, s.open[q]) && t.Locks() !! s.open[q].Locks();
      assert forall l <- s'.links :: l in s.links || l.1 in t.Locks();
    }
  }

  lemma InvRemove(s: State, e: Event)
    requires Inv(s) && Enabled(s, e) && (e.RemoveBytes? || e.RemoveFailed? || e.CommitCollect?)
    ensures Inv(Apply(s, e))
  {
    var s' := Apply(s, e);
    var t := s.open[e.p];
    assert TxnOk(s, t) && t.oid in t.Locks();
    forall q <- s'.open | q != e.p ensures TxnOk(s', s'.open[q]) {
      assert TxnOk(s, s.open[q]) && t.oid !in s.open[q].Locks();
    }
    forall l <- s'.links ensures l.1 in s'.stored && l.1 in s'.rows {
      assert l.1 != t.oid;
    }
  }

  lemma InvUnlink(s: State, e: Event)
    requires Inv(s) && e.Unlink?
    ensures Inv(Apply(s, e))
  {
    var s' := Apply(s, e);
    forall p <- s'.open ensures TxnOk(s', s'.open[p]) {
      assert TxnOk(s, s.open[p]);
    }
  }

  /** Every step of every actor keeps the invariant, provided a link step is backed. */
  lemma InvStep(s: State, e: Event)
    requires Inv(s) && Enabled(s, e) && Backed(s, e)
    ensures Inv(Apply(s, e))
  {
    match e
    case Put(_, _) => InvPut(s, e);
    case BeginRecord(_, _, _, _) => InvBegin(s, e);
    case BeginLink(_, _, _) => InvBegin(s, e);
    case ClaimOrphan(_, _) => InvBegin(s, e);
    case ClaimUntracked(_, _) => InvBegin(s, e);
    case Confirm(_) => InvRollBack(s, e);
    case Abort(_) => InvRollBack(s, e);
    case CommitRecord(_) => InvCommitLinks(s, e);
    case CommitLink(_) => InvCommitLinks(s, e);
    case RemoveBytes(_) => InvRemove(s, e);
    case RemoveFailed(_, _) => InvRemove(s, e);
    case CommitCollect(_) => InvRemove(s, e);
    case Unlink(_) => InvUnlink(s, e);
  }

  /** In any interleaving whose link steps are backed, every linked oid keeps its bytes. */
  lemma {:induction false} BackedRunsAreSafe(s: State, es: seq<Event>)
    requires Inv(s) && Run(s, es) && AlwaysBacked(s, es)
    ensures Inv(After(s, es)) && Safe(After(s, es))
    decreases |es|
  {
    if es != [] {
      InvStep(s, es[0]);
      BackedRunsAreSafe(Apply(s, es[0]), es[1..]);
    }
  }

  /**
    Exactly when LinkLFSObjects is safe. It trusts the row, where RecordLFSObject asks
    the bucket, so letting it begin keeps the promise through every continuation that
    is itself backed if and only if the bytes of the oids it is entitled to are there.
  */
  lemma LinkIsSafeExactlyWhenBacked(s: State, e: Event)
    requires Inv(s) && e.BeginLink? && Enabled(s, e)
    ensures Backed(s, e) <==>
            forall es :: Run(Apply(s, e), es) && AlwaysBacked(Apply(s, e), es)
                         ==> Safe(After(Apply(s, e), es))
  {
    var s1 := Apply(s, e);
    if Backed(s, e) {
      InvStep(s, e);
      forall es | Run(s1, es) && AlwaysBacked(s1, es) ensures Safe(After(s1, es)) {
        BackedRunsAreSafe(s1, es);
      }
    } else {
      var o :| o in Entitled(s, e.declared) && o !in s.stored;
      var es := [CommitLink(e.p)];
      var s2 := Apply(s1, es[0]);
      RunCons(s1, es[0], []);
      assert es == [es[0]] + [] && AlwaysBacked(s2, es[1..]);
      assert (e.repo, o) in s2.links && !Safe(s2);
    }
  }

  // ------------------------------------- rows without bytes: where they come from

  /** A committed row nobody is deleting has its bytes, so any link it earns is backed. */
  ghost predicate RowsBacked(s: State) {
    forall o <- s.rows :: o in s.stored ||
      exists p :: p in s.open && s.open[p].Collecting? && s.open[p].phase.Removed? && s.open[p].oid == o
  }

  lemma RowsBackedBacksLinks(s: State, e: Event)
    requires RowsBacked(s) && Enabled(s, e)
    ensures Backed(s, e)
  {
    if e.BeginLink? {
      forall o <- Entitled(s, e.declared) ensures o in s.stored {
        assert Free(s, o);
      }
    }
  }

  lemma BackedBefore(s: State, e: Event, o: Oid)
    requires Inv(s) && Enabled(s, e) && !Interrupts(s, e) && o in Apply(s, e).rows && o !in Apply(s, e).stored
    requires !(e.RemoveBytes? && s.open[e.p].oid == o)
    ensures o in s.rows && o !in s.stored
  {
    if e.CommitRecord? { assert TxnOk(s, s.open[e.p]); }
  }

  /** The collector that has removed the bytes of o goes on, unless it is cut off or takes the row. */
  lemma RemoverGoesOn(s: State, e: Event, o: Oid, p: Pid)
    requires Inv(s) && Enabled(s, e) && !Interrupts(s, e) && o in Apply(s, e).rows && o !in Apply(s, e).stored
    requires p in s.open && s.open[p].Collecting? && s.open[p].phase.Removed? && s.open[p].oid == o
    ensures p in Apply(s, e).open && Apply(s, e).open[p] == s.open[p]
  {
  }

  lemma RowsBackedKept(s: State, e: Event)
    requires Inv(s) && RowsBacked(s) && Enabled(s, e) && !Interrupts(s, e)
    ensures RowsBacked(Apply(s, e))
  {
    var s' := Apply(s, e);
    forall o <- s'.rows | o !in s'.stored
      ensures exists p :: p in s'.open && s'.open[p].Collecting? && s'.open[p].phase.Removed? && s'.open[p].oid == o
    {
      if e.RemoveBytes? && s.open[e.p].oid == o {
        assert s'.open[e.p].phase.Removed?;
      } else {
        BackedBefore(s, e, o);
        var p :| p in s.open && s.open[p].Collecting? && s.open[p].phase.Removed? && s.open[p].oid == o;
        RemoverGoesOn(s, e, o, p);
        assert s'.open[p].Collecting? && s'.open[p].phase.Removed? && s'.open[p].oid == o;
      }
    }
  }

  /** The one way a row comes to stand without its bytes: a delete cut off between the bucket and its commit. */
  lemma RowsBackedStep(s: State, e: Event)
    requires Inv(s) && RowsBacked(s) && Enabled(s, e)
    ensures RowsBacked(Apply(s, e)) <==> !Interrupts(s, e)
  {
    if Interrupts(s, e) {
      var o := s.open[e.p].oid;
      assert o in s.open[e.p].Locks() && forall q <- s.open :: q != e.p ==> o !in s.open[q].Locks();
      assert o in Apply(s, e).rows && o !in Apply(s, e).stored;
    } else {
      RowsBackedKept(s, e);
    }
  }

  /**
    A deployment in which no delete is cut off between the bucket and the commit needs
    no condition at all: every oid linked to a repository has its bytes, in every
    interleaving of uploads, dedup links, unlinks, failures and collectors.
  */
  lemma {:induction false} UninterruptedRunsAreSafe(s: State, es: seq<Event>)
    requires Inv(s) && RowsBacked(s) && Run(s, es) && NeverInterrupted(s, es)
    ensures Safe(After(s, es))
    decreases |es|
  {
    if es != [] {
      RowsBackedBacksLinks(s, es[0]);
      InvStep(s, es[0]);
      RowsBackedStep(s, es[0]);
      UninterruptedRunsAreSafe(Apply(s, es[0]), es[1..]);
    }
  }

  /** The empty instance meets both invariants, so the theorems speak about every reachable state. */
  lemma EmptyIsSafe()
    ensures Inv(EMPTY) && RowsBacked(EMPTY)
  {
  }

  // ------------------------------------------------------- where a link comes from

  /** The state a run has reached before its step i. */
  function Reached(s: State, es: seq<Event>, i: nat): State
    requires Run(s, es) && i <= |es|
    decreases |es|
  {
    if i == 0 then s else Reached(Apply(s, es[0]), es[1..], i - 1)
  }

  /** p asks the bucket about o at step j and finds exactly `size` bytes. */
  ghost predicate FindsBytes(s: State, es: seq<Event>, j: nat, p: Pid, o: Oid, size: nat)
    requires Run(s, es)
  {
    && j < |es| && es[j] == Confirm(p)
    && o in Reached(s, es, j).stored && Reached(s, es, j).stored[o] == size
  }

  /**
    Step i of the run earns r its link to o: an upload is recorded whose bytes are then found
    in the bucket at the recorded size, or a pointer declares the size that o's row has by then.
  */
  ghost predicate Earns(s: State, es: seq<Event>, i: nat, r: Repo, o: Oid)
    requires Run(s, es) && i < |es|
  {
    match es[i]
    case BeginRecord(p, repo, oid, size) =>
      repo == r && oid == o && exists j :: i < j && FindsBytes(s, es, j, p, o, size)
    case BeginLink(_, repo, declared) =>
      var rows := Reached(s, es, i).rows;
      repo == r && o in declared && o in rows && rows[o] in declared[o]
    case _ => false
  }

  /** p's open transaction links r to o once it commits, having found the bytes or going to. */
  ghost predicate Carries(s: State, es: seq<Event>, p: Pid, r: Repo, o: Oid)
    requires Run(s, es)
  {
    p in s.open && match s.open[p]
      case Recording(repo, oid, size, confirmed) =>
        repo == r && oid == o && (confirmed || exists j :: FindsBytes(s, es, j, p, o, size))
      case Linking(repo, entitled, _) => repo == r && o in entitled
      case _ => false
  }

  /** No transaction is open that could still link r to o. */
  predicate Unclaimed(s: State, r: Repo, o: Oid) {
    forall p <- s.open ::
      match s.open[p]
      case Recording(repo, oid, _, _) => repo != r || oid != o
      case Linking(repo, entitled, _) => repo != r || o !in entitled
      case _ => true
  }

  lemma FindsLater(s: State, es: seq<Event>, j: nat, p: Pid, o: Oid, size: nat)
    requires Run(s, es) && es != [] && FindsBytes(Apply(s, es[0]), es[1..], j, p, o, size)
    ensures FindsBytes(s, es, j + 1, p, o, size)
  {
  }

  lemma EarnsLater(s: State, es: seq<Event>, i: nat, r: Repo, o: Oid)
    requires Run(s, es) && es != [] && i < |es| - 1 && Earns(Apply(s, es[0]), es[1..], i, r, o)
    ensures Earns(s, es, i + 1, r, o)
  {
    var s1, tail := Apply(s, es[0]), es[1..];
    if tail[i].BeginRecord? {
      var j :| i < j && FindsBytes(s1, tail, j, tail[i].p, o, tail[i].size);
      FindsLater(s, es, j, tail[i].p, o, tail[i].size);
    }
  }

  /** What a transaction is about to link it was about to link before, or has just earned. */
  lemma CarriedOrEarned(s: State, es: seq<Event>, p: Pid, r: Repo, o: Oid)
    requires Run(s, es) && es != [] && Carries(Apply(s, es[0]), es[1..], p, r, o)
    ensures Carries(s, es, p, r, o) || Earns(s, es, 0, r, o)
  {
    var s1, tail := Apply(s, es[0]), es[1..];
    var t := s1.open[p];
    if t.Recording? && !t.confirmed {
      var j :| FindsBytes(s1, tail, j, p, o, t.size);
      FindsLater(s, es, j, p, o, t.size);
    }
    if t.Recording? && es[0] == Confirm(p) { assert FindsBytes(s, es, 0, p, o, t.size); }
  }

  lemma {:induction false} LinkComesFrom(s: State, es: seq<Event>, r: Repo, o: Oid)
    requires Run(s, es) && (r, o) !in s.links && (r, o) in After(s, es).links
    ensures (exists p :: Carries(s, es, p, r, o)) || exists i: nat :: i < |es| && Earns(s, es, i, r, o)
    decreases |es|
  {
    var s1, tail := Apply(s, es[0]), es[1..];
    if (r, o) in s1.links {
      assert Carries(s, es, es[0].p, r, o);
    } else {
      LinkComesFrom(s1, tail, r, o);
      if p :| Carries(s1, tail, p, r, o) {
        CarriedOrEarned(s, es, p, r, o);
      } else {
        var i: nat :| i < |tail| && Earns(s1, tail, i, r, o);
        EarnsLater(s, es, i, r, o);
      }
    }
  }

  /**
    The entitlement, over every run: a repository gains a link only to an oid whose bytes an
    upload of its own was found to have stored, or whose recorded size a pointer of its own
    declared. Naming an oid is not enough.
  */
  lemma LinksAreEarned(s: State, es: seq<Event>, r: Repo, o: Oid)
    requires Run(s, es) && Unclaimed(s, r, o) && (r, o) !in s.links && (r, o) in After(s, es).links
    ensures exists i: nat :: i < |es| && Earns(s, es, i, r, o)
  {
    LinkComesFrom(s, es, r, o);
  }

  /** Step i begins to record o at this size, and its bytes are then found at that size. */
  ghost predicate RecordsAt(s: State, es: seq<Event>, i: nat, o: Oid, size: nat)
    requires Run(s, es) && i < |es|
  {
    es[i].BeginRecord? && es[i].oid == o && es[i].size == size
    && exists j :: i < j && FindsBytes(s, es, j, es[i].p, o, size)
  }

  ghost predicate IsRecording(s: State, es: seq<Event>, p: Pid, o: Oid, size: nat)
    requires Run(s, es)
  {
    && p in s.open && s.open[p].Recording? && s.open[p].oid == o && s.open[p].size == size
    && (s.open[p].confirmed || exists j :: FindsBytes(s, es, j, p, o, size))
  }

  lemma RecordingBefore(s: State, es: seq<Event>, p: Pid, o: Oid, size: nat)
    requires Run(s, es) && es != [] && IsRecording(Apply(s, es[0]), es[1..], p, o, size)
    ensures IsRecording(s, es, p, o, size) || RecordsAt(s, es, 0, o, size)
  {
    var s1, tail := Apply(s, es[0]), es[1..];
    if !s1.open[p].confirmed {
      var j :| FindsBytes(s1, tail, j, p, o, size);
      FindsLater(s, es, j, p, o, size);
    }
    if es[0] == Confirm(p) { assert FindsBytes(s, es, 0, p, o, size); }
  }

  lemma RecordsLater(s: State, es: seq<Event>, i: nat, o: Oid, size: nat)
    requires Run(s, es) && es != [] && i < |es| - 1 && RecordsAt(Apply(s, es[0]), es[1..], i, o, size)
    ensures RecordsAt(s, es, i + 1, o, size)
  {
    var j :| i < j && FindsBytes(Apply(s, es[0]), es[1..], j, es[i + 1].p, o, size);
    FindsLater(s, es, j, es[i + 1].p, o, size);
  }

  lemma {:induction false} RowComesFrom(s: State, es: seq<Event>, o: Oid, size: nat)
    requires Run(s, es) && (o, size) !in s.rows.Items && (o, size) in After(s, es).rows.Items
    ensures (exists p :: IsRecording(s, es, p, o, size)) || exists i: nat :: i < |es| && RecordsAt(s, es, i, o, size)
    decreases |es|
  {
    var s1, tail := Apply(s, es[0]), es[1..];
    if (o, size) in s1.rows.Items {
      assert IsRecording(s, es, es[0].p, o, size);
    } else {
      RowComesFrom(s1, tail, o, size);
      if p :| IsRecording(s1, tail, p, o, size) {
        RecordingBefore(s, es, p, o, size);
      } else {
        var i: nat :| i < |tail| && RecordsAt(s1, tail, i, o, size);
        RecordsLater(s, es, i, o, size);
      }
    }
  }

  /** A row is written, over every run, only with a size at which its bytes were found in the bucket. */
  lemma RowsAreFound(s: State, es: seq<Event>, o: Oid, size: nat)
    requires Run(s, es) && Free(s, o) && (o, size) !in s.rows.Items && (o, size) in After(s, es).rows.Items
    ensures exists i: nat :: i < |es| && RecordsAt(s, es, i, o, size)
  {
    RowComesFrom(s, es, o, size);
    forall p ensures !IsRecording(s, es, p, o, size) {
      assert p in s.open && s.open[p].Recording? ==> s.open[p].oid in s.open[p].Locks();
    }
  }

  /** A step of transaction p itself. */
  predicate Moves(e: Event, p: Pid) {
    match e
    case Put(_, _) => false
    case Unlink(_) => false
    case _ => e.p == p
  }

  lemma {:induction false} TxnWaits(s: State, es: seq<Event>, p: Pid)
    requires Run(s, es) && p in s.open && forall e <- es :: !Moves(e, p)
    ensures p in After(s, es).open && After(s, es).open[p] == s.open[p]
    decreases |es|
  {
    if es != [] {
      assert es[0] in es && forall e <- es[1..] :: e in es;
      TxnWaits(Apply(s, es[0]), es[1..], p);
    }
  }

  /** And it gains every one of them: whatever runs between, the commit links all that was earned and no more. */
  lemma LinkTakesAllItEarned(s: State, p: Pid, r: Repo, declared: map<Oid, set<nat>>, between: seq<Event>)
    requires Enabled(s, BeginLink(p, r, declared)) && (forall e <- between :: !Moves(e, p))
    requires Run(Apply(s, BeginLink(p, r, declared)), between)
    ensures var t := After(Apply(s, BeginLink(p, r, declared)), between);
            && Enabled(t, CommitLink(p))
            && forall q, o :: (q, o) in Apply(t, CommitLink(p)).links <==>
                 (q, o) in t.links || (q == r && o in declared && o in s.rows && s.rows[o] in declared[o])
  {
    TxnWaits(Apply(s, BeginLink(p, r, declared)), between, p);
  }

  // ---------------------------------------------------- what stands until it is collected

  /** Step i claims o for collection: a row that no repository is linked to, or an oid without a row. */
  predicate ClaimsAt(s: State, es: seq<Event>, i: nat, p: Pid, o: Oid)
    requires Run(s, es)
  {
    i < |es| && var t := Reached(s, es, i);
      || (es[i] == ClaimOrphan(p, o) && o in t.rows && forall l <- t.links :: l.1 != o)
      || (es[i] == ClaimUntracked(p, o) && o !in t.rows)
  }

  predicate TakesBytes(e: Event, p: Pid) {
    e == RemoveBytes(p) || e == RemoveFailed(p, true)
  }

  /** p holds its claim on o and has taken the bytes or is going to. */
  ghost predicate Collects(s: State, es: seq<Event>, p: Pid, o: Oid) {
    && p in s.open && s.open[p].Collecting? && s.open[p].oid == o
    && (s.open[p].phase.Removed? || exists j: nat :: j < |es| && TakesBytes(es[j], p))
  }

  /** A collector claims o, and then takes its bytes. */
  ghost predicate Collected(s: State, es: seq<Event>, o: Oid)
    requires Run(s, es)
  {
    exists i: nat, j: nat, p :: i < j < |es| && ClaimsAt(s, es, i, p, o) && TakesBytes(es[j], p)
  }

  lemma CollectsBefore(s: State, es: seq<Event>, p: Pid, o: Oid)
    requires Run(s, es) && es != [] && Collects(Apply(s, es[0]), es[1..], p, o)
    ensures Collects(s, es, p, o) || Collected(s, es, o)
  {
    var s1, tail := Apply(s, es[0]), es[1..];
    if s1.open[p].phase.Claimed? {
      var j: nat :| j < |tail| && TakesBytes(tail[j], p);
      assert TakesBytes(es[j + 1], p);
      if p !in s.open { assert ClaimsAt(s, es, 0, p, o); }
    } else {
      assert TakesBytes(es[0], p) || s.open[p].phase.Removed?;
    }
  }

  lemma CollectedLater(s: State, es: seq<Event>, o: Oid)
    requires Run(s, es) && es != [] && Collected(Apply(s, es[0]), es[1..], o)
    ensures Collected(s, es, o)
  {
    var s1, tail := Apply(s, es[0]), es[1..];
    var i: nat, j: nat, p :| i < j < |tail| && ClaimsAt(s1, tail, i, p, o) && TakesBytes(tail[j], p);
    assert ClaimsAt(s, es, i + 1, p, o) && TakesBytes(es[j + 1], p);
  }

  /** What the run has not collected stands: the bytes with their length, the row with its size. */
  ghost predicate Stands(s: State, t: State, o: Oid) {
    && (o in s.stored ==> o in t.stored && t.stored[o] == s.stored[o])
    && (o in s.rows ==> o in t.rows && t.rows[o] == s.rows[o])
  }

  lemma StandsOneStep(s: State, e: Event, es: seq<Event>, o: Oid)
    requires Enabled(s, e) && es != [] && es[0] == e
    ensures Stands(s, Apply(s, e), o) || exists p :: Collects(s, es, p, o)
  {
    match e
    case RemoveBytes(p) => assert TakesBytes(es[0], p); assert s.open[p].oid == o ==> Collects(s, es, p, o);
    case RemoveFailed(p, gone) =>
      if gone { assert TakesBytes(es[0], p); }
      assert gone && s.open[p].oid == o ==> Collects(s, es, p, o);
    case CommitCollect(p) => assert s.open[p].oid == o ==> Collects(s, es, p, o);
    case _ =>
  }

  lemma {:induction false} GoesByCollection(s: State, es: seq<Event>, o: Oid)
    requires Run(s, es)
    ensures Stands(s, After(s, es), o) || (exists p :: Collects(s, es, p, o)) || Collected(s, es, o)
    decreases |es|
  {
    if es != [] {
      var s1, tail := Apply(s, es[0]), es[1..];
      StandsOneStep(s, es[0], es, o);
      GoesByCollection(s1, tail, o);
      if Collected(s1, tail, o) {
        CollectedLater(s, es, o);
      } else if p :| Collects(s1, tail, p, o) {
        CollectsBefore(s, es, p, o);
      }
    }
  }

  /**
    Nothing is lost by itself, over every run: an object's bytes stay as they were put, and its
    row keeps its size, unless a collector claims the oid while no repository is linked to it
    and then takes the bytes. The row never goes first.
  */
  lemma OnlyCollectorsTakeAway(s: State, es: seq<Event>, o: Oid)
    requires Run(s, es) && Free(s, o)
    ensures Stands(s, After(s, es), o) || Collected(s, es, o)
  {
    GoesByCollection(s, es, o);
    forall p ensures !Collects(s, es, p, o) {
      assert p in s.open && s.open[p].Collecting? ==> s.open[p].oid in s.open[p].Locks();
    }
  }

  /** A link stays until it is taken away by name. */
  lemma {:induction false} LinksStay(s: State, es: seq<Event>, r: Repo, o: Oid)
    requires Run(s, es) && (r, o) in s.links && forall e <- es :: e.Unlink? ==> (r, o) !in e.dropped
    ensures (r, o) in After(s, es).links
    decreases |es|
  {
    if es != [] {
      assert es[0] in es && forall e <- es[1..] :: e in es;
      LinksStay(Apply(s, es[0]), es[1..], r, o);
    }
  }

  lemma RunTwo(s: State, e0: Event, e1: Event)
    requires Enabled(s, e0) && Enabled(Apply(s, e0), e1)
    ensures Run(s, [e0, e1]) && After(s, [e0, e1]) == Apply(Apply(s, e0), e1)
  {
    RunCons(Apply(s, e0), e1, []);
    RunCons(s, e0, [e1]);
    assert [e0] + [e1] == [e0, e1] && [e1] + [] == [e1];
  }
}
