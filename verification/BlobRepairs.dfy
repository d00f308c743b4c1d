/**
  What a push, its repair, and a gc run come to when nobody else is in their way: the steps they
  take can all be taken, and what they leave is told from what they found.
*/
module BlobRepairs {
  import opened BlobLedger

  /** The steps of the pipeline, or of the gc run, p. */
  predicate StepOf(e: Event, p: Pid) {
    match e
    case Start(q, _, _) => q == p
    case Publish(q, _) => q == p
    case Index(q) => q == p
    case Select(q) => q == p
    case LockRow(q, _) => q == p
    case LocksTaken(q) => q == p
    case Republish(q, _) => q == p
    case Finish(q) => q == p
    case List(q) => q == p
    case Screen(q) => q == p
    case Intent(q, _) => q == p
    case Claim(q) => q == p
    case Recheck(q) => q == p
    case RemoveBytes(q) => q == p
    case EndCollect(q) => q == p
    case _ => false
  }

  /** p on its own leads from s to t. */
  ghost predicate Leads(s: State, p: Pid, t: State) {
    exists es :: Run(s, es) && After(s, es) == t && forall e <- es :: StepOf(e, p)
  }

  lemma LeadsNowhere(s: State, p: Pid)
    ensures Leads(s, p, s)
  {
    assert Run(s, []) && After(s, []) == s;
  }

  lemma LeadsFrom(s: State, p: Pid, e: Event, t: State)
    requires Enabled(s, e) && StepOf(e, p) && Leads(Apply(s, e), p, t)
    ensures Leads(s, p, t)
  {
    var es :| Run(Apply(s, e), es) && After(Apply(s, e), es) == t && forall e <- es :: StepOf(e, p);
    RunCons(s, e, es);
  }

  // ------------------------------------------------------------------ a repair

  /**
    What a repair of the ref leaves that selected after `asOf` index writes, and met these ledger
    rows: their blobs are back and their rows gone, and of what the ref owed only later writes.
  */
  ghost predicate Repaired(s: State, t: State, p: Pid, r: Ref, rows: set<Sha>, asOf: nat) {
    && p !in t.pipes && (forall q <- s.pipes :: q != p ==> q in t.pipes && t.pipes[q] == s.pipes[q])
    && t.stored.Keys == s.stored.Keys + rows && (forall x <- s.stored :: t.stored[x] == s.stored[x])
    && t.ledger == s.ledger - rows
    && t.index == s.index && t.scans == s.scans && t.gcs == s.gcs
    && (forall q :: q in t.owed <==> q in s.owed && (s.owed[q].ref != r || s.owed[q].write > asOf))
    && (forall q <- t.owed :: t.owed[q] == s.owed[q])
  }

  lemma Republishes(s: State, p: Pid, x: Sha)
    requires Enabled(s, Republish(p, x))
    ensures var u, g := Apply(s, Republish(p, x)), s.pipes[p].stage;
            && u.stored == Put(s, x)
            && u.pipes == s.pipes[p := s.pipes[p].(stage := Repairing(g.locked, g.back + {x}, g.asOf))]
            && (u.index, u.ledger, u.owed, u.scans, u.gcs) == (s.index, s.ledger, s.owed, s.scans, s.gcs)
  {
  }

  lemma Finishes(s: State, p: Pid)
    requires Enabled(s, Finish(p)) && s.pipes[p].stage.locked <= s.stored.Keys
    ensures var g := s.pipes[p].stage;
            Repaired(s, Apply(s, Finish(p)), p, s.pipes[p].ref, g.locked, g.asOf)
  {
  }

  lemma RepairedThrough(s: State, u: State, t: State, p: Pid, x: Sha, rows: set<Sha>, asOf: nat)
    requires p in s.pipes && x in rows && u.stored == Put(s, x) && p in u.pipes
    requires forall q <- s.pipes :: q != p ==> q in u.pipes && u.pipes[q] == s.pipes[q]
    requires (u.index, u.ledger, u.owed, u.scans, u.gcs) == (s.index, s.ledger, s.owed, s.scans, s.gcs)
    requires Repaired(u, t, p, s.pipes[p].ref, rows, asOf)
    ensures Repaired(s, t, p, s.pipes[p].ref, rows, asOf)
  {
    assert u.stored.Keys == s.stored.Keys + {x};
  }

  lemma {:induction false} RowsAreRepublished(s: State, p: Pid) returns (t: State)
    requires p in s.pipes && s.pipes[p].stage.Repairing? && PipeOk(s, s.pipes[p])
    ensures Leads(s, p, t)
    ensures Repaired(s, t, p, s.pipes[p].ref, s.pipes[p].stage.locked, s.pipes[p].stage.asOf)
    decreases s.pipes[p].stage.locked - s.pipes[p].stage.back
  {
    var locked, back, asOf := s.pipes[p].stage.locked, s.pipes[p].stage.back, s.pipes[p].stage.asOf;
    if x :| x in locked - back {
      var u := Apply(s, Republish(p, x));
      Republishes(s, p, x);
      assert locked - (back + {x}) == locked - back - {x};
      t := RowsAreRepublished(u, p);
      RepairedThrough(s, u, t, p, x, locked, asOf);
      LeadsFrom(s, p, Republish(p, x), t);
    } else {
      assert forall x <- locked :: x in back || x in locked - back;
      assert locked == back;
      Finishes(s, p);
      t := Apply(s, Finish(p));
      LeadsNowhere(t, p);
      LeadsFrom(s, p, Finish(p), t);
    }
  }

  lemma LocksARow(s: State, p: Pid, x: Sha)
    requires Enabled(s, LockRow(p, x)) && PipeOk(s, s.pipes[p])
    ensures var u, g := Apply(s, LockRow(p, x)), s.pipes[p].stage;
            var locked := if x in s.ledger then g.locked + {x} else g.locked;
            && u.pipes == s.pipes[p := s.pipes[p].(stage := Locking(g.todo - {x}, locked, g.asOf))]
            && (u.stored, u.index, u.ledger, u.owed, u.scans, u.gcs, u.writes)
               == (s.stored, s.index, s.ledger, s.owed, s.scans, s.gcs, s.writes)
            && PipeOk(u, u.pipes[p])
  {
  }

  /** A row p takes leaves the others it is still to take free. */
  lemma OthersStayFree(s: State, p: Pid, x: Sha, y: Sha)
    requires Enabled(s, LockRow(p, x)) && RowFree(s, y) && y != x
    ensures RowFree(Apply(s, LockRow(p, x)), y)
  {
    var u := Apply(s, LockRow(p, x));
    assert u.gcs == s.gcs;
    forall q <- u.pipes ensures y !in u.pipes[q].Locks() {
      assert q in s.pipes && y !in s.pipes[q].Locks();
      if q == p { assert u.pipes[p].Locks() <= s.pipes[p].Locks() + {x}; }
    }
  }

  lemma EndsLocking(s: State, p: Pid)
    requires Enabled(s, LocksTaken(p)) && PipeOk(s, s.pipes[p])
    ensures var u, g := Apply(s, LocksTaken(p)), s.pipes[p].stage;
            && u == s.(pipes := s.pipes[p := s.pipes[p].(stage := Repairing(g.locked, {}, g.asOf))])
            && PipeOk(u, u.pipes[p])
  {
  }

  /** The rows p will have met once it holds all it can. */
  function Rows(s: State, g: Stage): set<Sha>
    requires g.Locking?
  {
    g.todo * s.ledger.Keys + g.locked
  }

  lemma LocksOn(s: State, p: Pid, x: Sha)
    requires Enabled(s, LockRow(p, x)) && PipeOk(s, s.pipes[p])
    requires forall y <- s.pipes[p].stage.todo :: RowFree(s, y)
    ensures var u, g := Apply(s, LockRow(p, x)), s.pipes[p].stage;
            && At(u, p, u.pipes[p].stage) && u.pipes[p].ref == s.pipes[p].ref
            && u.pipes[p].stage.Locking? && PipeOk(u, u.pipes[p])
            && u.pipes[p].stage.todo == g.todo - {x} && u.pipes[p].stage.asOf == g.asOf
            && Rows(u, u.pipes[p].stage) == Rows(s, g)
            && forall y <- u.pipes[p].stage.todo :: RowFree(u, y)
  {
    LocksARow(s, p, x);
    forall y | y in s.pipes[p].stage.todo - {x} ensures RowFree(Apply(s, LockRow(p, x)), y) {
      OthersStayFree(s, p, x, y);
    }
  }

  lemma RepairedAfterLock(s: State, p: Pid, x: Sha, t: State, rows: set<Sha>, asOf: nat)
    requires Enabled(s, LockRow(p, x)) && PipeOk(s, s.pipes[p])
    requires Repaired(Apply(s, LockRow(p, x)), t, p, s.pipes[p].ref, rows, asOf)
    ensures Repaired(s, t, p, s.pipes[p].ref, rows, asOf)
  {
    LocksARow(s, p, x);
  }

  lemma {:induction false} RowsAreLocked(s: State, p: Pid) returns (t: State)
    requires p in s.pipes && s.pipes[p].stage.Locking? && PipeOk(s, s.pipes[p])
    requires forall x <- s.pipes[p].stage.todo :: RowFree(s, x)
    ensures Leads(s, p, t)
    ensures Repaired(s, t, p, s.pipes[p].ref, Rows(s, s.pipes[p].stage), s.pipes[p].stage.asOf)
    decreases s.pipes[p].stage.todo
  {
    var g := s.pipes[p].stage;
    if x :| x in g.todo {
      LocksOn(s, p, x);
      t := RowsAreLocked(Apply(s, LockRow(p, x)), p);
      RepairedAfterLock(s, p, x, t, Rows(s, g), g.asOf);
      LeadsFrom(s, p, LockRow(p, x), t);
    } else {
      EndsLocking(s, p);
      assert Rows(s, g) == g.locked;
      t := RowsAreRepublished(Apply(s, LocksTaken(p)), p);
      LeadsFrom(s, p, LocksTaken(p), t);
    }
  }

  lemma Selects(s: State, p: Pid)
    requires Enabled(s, Select(p))
    ensures var u := Apply(s, Select(p));
            && u == s.(pipes := s.pipes[p := s.pipes[p].(stage :=
                       Locking(s.ledger.Keys * IndexOf(s, s.pipes[p].ref), {}, s.writes))])
            && PipeOk(u, u.pipes[p]) && forall x :: RowFree(s, x) ==> RowFree(u, x)
  {
  }

  /** The repair of r by p has come to its end in t. */
  ghost predicate Repairs(s: State, t: State, p: Pid, r: Ref) {
    && p !in t.pipes && t.index == s.index
    && (forall x :: x in t.stored <==> x in s.stored || (x in s.ledger && x in IndexOf(s, r)))
    && (forall x <- s.stored :: t.stored[x] == s.stored[x])
    && (forall x :: x in t.ledger <==> x in s.ledger && x !in IndexOf(s, r))
    && (forall q :: q in t.owed <==> q in s.owed && s.owed[q].ref != r)
    && (forall q <- t.owed :: t.owed[q] == s.owed[q])
  }

  /**
    A repair whose rows nobody holds can go to its end, by its own steps alone: every blob of its
    ref that the ledger names is then stored and forgotten by the ledger, nothing else of either
    changes, and nobody owes the ref a repair any more.
  */
  lemma RepairAloneSettles(s: State, p: Pid) returns (t: State)
    requires Base(s) && At(s, p, Indexed)
    requires forall x <- s.ledger :: x in IndexOf(s, s.pipes[p].ref) ==> RowFree(s, x)
    ensures Leads(s, p, t) && Repairs(s, t, p, s.pipes[p].ref)
  {
    var r := s.pipes[p].ref;
    Selects(s, p);
    t := RowsAreLocked(Apply(s, Select(p)), p);
    LeadsFrom(s, p, Select(p), t);
    forall q ensures q in t.owed <==> q in s.owed && s.owed[q].ref != r {
      assert q in s.owed ==> DueOk(s, q);
    }
  }

  // -------------------------------------------------------------------- a push

  lemma Starts(s: State, e: Event)
    requires Enabled(s, e) && e.Start?
    ensures var u := Apply(s, e);
            && At(u, e.p, Publishing) && u.pipes[e.p].ref == e.r && u.pipes[e.p].tree == e.tree
            && u.ledger == s.ledger && u.index == s.index && forall y :: RowFree(s, y) ==> RowFree(u, y)
  {
  }

  lemma Publishes(s: State, p: Pid, x: Sha)
    requires Enabled(s, Publish(p, x))
    ensures var u := Apply(s, Publish(p, x));
            && u.stored == Put(s, x)
            && u.pipes == s.pipes[p := s.pipes[p].(settled := s.pipes[p].settled + {x})]
            && (u.index, u.ledger, u.owed, u.scans, u.gcs) == (s.index, s.ledger, s.owed, s.scans, s.gcs)
            && forall y :: RowFree(s, y) ==> RowFree(u, y)
  {
  }

  lemma Indexes(s: State, p: Pid)
    requires Enabled(s, Index(p))
    ensures var u := Apply(s, Index(p));
            && u.stored == s.stored && u.ledger == s.ledger && u.index == s.index[s.pipes[p].ref := s.pipes[p].tree]
            && At(u, p, Indexed) && u.pipes[p].ref == s.pipes[p].ref
            && forall y :: RowFree(s, y) ==> RowFree(u, y)
  {
  }

  /** The push of `tree` to r by p has come to its end in t. */
  ghost predicate Pushed(s: State, t: State, p: Pid, r: Ref, tree: set<Sha>) {
    && p !in t.pipes && IndexOf(t, r) == tree <= t.stored.Keys
    && (forall other :: other != r ==> IndexOf(t, other) == IndexOf(s, other))
    && (forall x :: x in t.ledger <==> x in s.ledger && x !in tree)
    && (forall q <- t.owed :: t.owed[q].ref != r)
  }

  lemma PushedByRepair(s: State, p: Pid, t: State)
    requires Enabled(s, Index(p)) && PipeOk(s, s.pipes[p])
    requires Repairs(Apply(s, Index(p)), t, p, s.pipes[p].ref)
    ensures Pushed(s, t, p, s.pipes[p].ref, s.pipes[p].tree)
  {
    Indexes(s, p);
    forall x <- s.pipes[p].tree ensures x in t.stored {
      assert x in s.pipes[p].settled;
    }
  }

  lemma TreeIsIndexed(s: State, p: Pid) returns (t: State)
    requires Inv(s) && Enabled(s, Index(p))
    requires forall x <- s.ledger :: x in s.pipes[p].tree ==> RowFree(s, x)
    ensures Leads(s, p, t) && Pushed(s, t, p, s.pipes[p].ref, s.pipes[p].tree)
  {
    assert PipeOk(s, s.pipes[p]);
    BaseStep(s, Index(p));
    Indexes(s, p);
    t := RepairAloneSettles(Apply(s, Index(p)), p);
    PushedByRepair(s, p, t);
    LeadsFrom(s, p, Index(p), t);
  }

  lemma PushedAfterPublish(s: State, p: Pid, x: Sha, t: State)
    requires Enabled(s, Publish(p, x)) && Pushed(Apply(s, Publish(p, x)), t, p, s.pipes[p].ref, s.pipes[p].tree)
    ensures Pushed(s, t, p, s.pipes[p].ref, s.pipes[p].tree)
  {
    Publishes(s, p, x);
  }

  lemma {:induction false} TreeIsSettled(s: State, p: Pid) returns (t: State)
    requires Inv(s) && At(s, p, Publishing)
    requires forall x <- s.ledger :: x in s.pipes[p].tree ==> RowFree(s, x)
    ensures Leads(s, p, t) && Pushed(s, t, p, s.pipes[p].ref, s.pipes[p].tree)
    decreases s.pipes[p].tree - s.pipes[p].settled
  {
    var tree, settled := s.pipes[p].tree, s.pipes[p].settled;
    if x :| x in tree - settled {
      Publishes(s, p, x);
      InvStep(s, Publish(p, x));
      assert tree - (settled + {x}) == tree - settled - {x};
      t := TreeIsSettled(Apply(s, Publish(p, x)), p);
      PushedAfterPublish(s, p, x, t);
      LeadsFrom(s, p, Publish(p, x), t);
    } else {
      assert PipeOk(s, s.pipes[p]);
      assert forall x <- tree :: x in settled || x in tree - settled;
      t := TreeIsIndexed(s, p);
    }
  }

  /**
    A push whose blobs no collector and no other repair holds can go to its end, by its own steps
    alone, whatever had been lost before: the ref then names its tree, every blob of the tree is
    stored, and nobody owes the ref a repair.
  */
  lemma PushAloneStoresItsTree(s: State, p: Pid, r: Ref, tree: set<Sha>) returns (t: State)
    requires Inv(s) && p !in s.pipes && (p in s.owed ==> s.owed[p].ref == r && !s.owed[p].parked)
    requires forall x <- s.ledger :: x in tree ==> RowFree(s, x)
    ensures Leads(s, p, t) && Pushed(s, t, p, r, tree)
  {
    var e := Start(p, r, tree);
    Starts(s, e);
    InvStep(s, e);
    t := TreeIsSettled(Apply(s, e), p);
    LeadsFrom(s, p, e, t);
  }

  /** A parked job stays so, until an operator returns to it or the repair of another push answers for it. */
  lemma ParkedJobsWait(s: State, e: Event, q: Pid)
    requires Enabled(s, e) && q in s.owed && s.owed[q].parked
    ensures q in Apply(s, e).pipes ==> q in s.pipes
    ensures (q in Apply(s, e).owed && (Apply(s, e).owed[q].parked <==> e != Retry(q)))
            || (e.Finish? && s.pipes[e.p].ref == s.owed[q].ref && q !in Apply(s, e).owed)
  {
  }

  lemma LocksAreKept(s: State, e: Event, p: Pid, x: Sha)
    requires Enabled(s, e) && p in s.pipes && x in s.pipes[p].Locks() && e != Finish(p) && e != Crash(p)
    ensures p in Apply(s, e).pipes && x in Apply(s, e).pipes[p].Locks()
  {
  }

  lemma LocksAreMine(s: State, p: Pid, x: Sha)
    requires Base(s) && p in s.pipes && x in s.pipes[p].Locks()
    ensures x in s.ledger && forall q <- s.pipes :: q != p ==> x !in s.pipes[q].Locks()
    ensures forall g <- s.gcs :: x !in s.gcs[g].Locks()
  {
    assert PipeOk(s, s.pipes[p]);
    forall q <- s.pipes | q != p ensures x !in s.pipes[q].Locks() {
      assert s.pipes[p].Locks() !! s.pipes[q].Locks();
    }
    forall g <- s.gcs ensures x !in s.gcs[g].Locks() {
      assert s.pipes[p].Locks() !! s.gcs[g].Locks();
    }
  }

  lemma HeldRowStands(s: State, e: Event, p: Pid, x: Sha)
    requires Enabled(s, e) && p in s.pipes && x in s.pipes[p].Locks() && x in s.ledger && e != Finish(p)
    requires forall q <- s.pipes :: q != p ==> x !in s.pipes[q].Locks()
    ensures x in Apply(s, e).ledger && Apply(s, e).ledger[x] == s.ledger[x]
  {
  }

  lemma HeldBytesStand(s: State, e: Event, x: Sha)
    requires Enabled(s, e) && x in s.stored && forall g <- s.gcs :: x !in s.gcs[g].Locks()
    ensures x in Apply(s, e).stored && Apply(s, e).stored[x] == s.stored[x]
  {
  }

  /**
    As long as a repair holds a ledger row, whatever step anybody takes leaves its lock, the row
    and the bytes the row stands for.
  */
  lemma HeldRowsStand(s: State, e: Event, p: Pid, x: Sha)
    requires Base(s) && Enabled(s, e) && p in s.pipes && x in s.pipes[p].Locks()
    requires e != Finish(p) && e != Crash(p)
    ensures var t := Apply(s, e);
            && p in t.pipes && x in t.pipes[p].Locks()
            && x in t.ledger && t.ledger[x] == s.ledger[x]
            && (x in s.stored ==> x in t.stored && t.stored[x] == s.stored[x])
  {
    LocksAreKept(s, e, p, x);
    LocksAreMine(s, p, x);
    HeldRowStands(s, e, p, x);
    if x in s.stored { HeldBytesStand(s, e, x); }
  }

  // ------------------------------------------------------------------ a gc run

  lemma Screens(s: State, g: Pid, x: Sha)
    requires Enabled(s, List(g)) && x in s.stored && s.stored[x] + 24 * 3600 < s.now
    requires forall r <- s.index :: x !in s.index[r]
    ensures var a := Apply(s, List(g));
            Enabled(a, Screen(g))
            && var b := Apply(a, Screen(g));
               b == s.(scans := b.scans) && g in b.scans && b.scans[g].Screened? && x in b.scans[g].candidates
  {
    assert x in Candidates(Apply(s, List(g)), s.stored);
  }

  lemma Intends(s: State, g: Pid, x: Sha)
    requires Enabled(s, Intent(g, x))
    ensures var c := Apply(s, Intent(g, x));
            && c == s.(scans := c.scans, ledger := s.ledger[x := s.now],
                       gcs := s.gcs[g := Collect(x, s.now, Recorded)])
            && Enabled(c, Claim(g))
  {
  }

  lemma Claims(s: State, g: Pid)
    requires Enabled(s, Claim(g)) && s.gcs[g].sha in s.ledger
    ensures Apply(s, Claim(g)) == s.(gcs := s.gcs[g := s.gcs[g].(stage := Held)])
  {
  }

  lemma Removes(s: State, g: Pid)
    requires GcAt(s, g, Held) && (forall r <- s.index :: s.gcs[g].sha !in s.index[r])
    ensures var c := Apply(s, Recheck(g));
            Enabled(c, RemoveBytes(g))
            && var d := Apply(c, RemoveBytes(g));
               Enabled(d, EndCollect(g))
               && Apply(d, EndCollect(g)) == s.(stored := s.stored - {s.gcs[g].sha}, gcs := s.gcs - {g})
  {
  }

  lemma RemovalLeads(s: State, g: Pid) returns (t: State)
    requires GcAt(s, g, Held) && (forall r <- s.index :: s.gcs[g].sha !in s.index[r])
    ensures Leads(s, g, t) && t == s.(stored := s.stored - {s.gcs[g].sha}, gcs := s.gcs - {g})
  {
    Removes(s, g);
    var c := Apply(s, Recheck(g));
    var d := Apply(c, RemoveBytes(g));
    t := Apply(d, EndCollect(g));
    LeadsNowhere(t, g);
    LeadsFrom(d, g, EndCollect(g), t);
    LeadsFrom(c, g, RemoveBytes(g), t);
    LeadsFrom(s, g, Recheck(g), t);
  }

  lemma IntendsAndClaims(s: State, g: Pid, x: Sha)
    requires Enabled(s, Intent(g, x))
    ensures var c := Apply(s, Intent(g, x));
            Enabled(c, Claim(g))
            && var d := Apply(c, Claim(g));
               d == s.(scans := d.scans, ledger := s.ledger[x := s.now], gcs := s.gcs[g := Collect(x, s.now, Held)])
  {
    Intends(s, g, x);
    Claims(Apply(s, Intent(g, x)), g);
  }

  lemma ClaimLeads(s: State, g: Pid, x: Sha) returns (t: State)
    requires Enabled(s, Intent(g, x)) && (forall r <- s.index :: x !in s.index[r])
    ensures Leads(s, g, t)
    ensures t.stored == s.stored - {x} && t.ledger == s.ledger[x := s.now] && t.gcs == s.gcs
  {
    IntendsAndClaims(s, g, x);
    var c := Apply(s, Intent(g, x));
    t := RemovalLeads(Apply(c, Claim(g)), g);
    LeadsFrom(c, g, Claim(g), t);
    LeadsFrom(s, g, Intent(g, x), t);
  }

  /**
    A gc run with nobody in its way takes a blob that is over a day old and that no ref names,
    leaves its ledger row behind, and is done with it.
  */
  lemma CollectionAloneTakes(s: State, g: Pid, x: Sha) returns (t: State)
    requires x in s.stored && s.stored[x] + 24 * 3600 < s.now && (forall r <- s.index :: x !in s.index[r])
    requires RowFree(s, x) && g !in s.scans && g !in s.gcs
    ensures Leads(s, g, t)
    ensures t.stored == s.stored - {x} && t.ledger == s.ledger[x := s.now] && t.gcs == s.gcs
  {
    Screens(s, g, x);
    var a := Apply(s, List(g));
    t := ClaimLeads(Apply(a, Screen(g)), g, x);
    LeadsFrom(a, g, Screen(g), t);
    LeadsFrom(s, g, List(g), t);
  }

  /** Where storage fails, the blob is gone or it is not; the collector is done, and the row stays in each case. */
  lemma FailedRemovalEnds(s: State, g: Pid, gone: bool)
    requires GcAt(s, g, Cleared)
    ensures var t := Apply(s, RemoveFailed(g, gone));
            && t.gcs == s.gcs - {g} && t.ledger == s.ledger
            && t.stored == if gone then s.stored - {s.gcs[g].sha} else s.stored
  {
  }

  /**
    A collector whose row a repair has taken, or that finds its blob named after all, is done: bytes
    and ledger are as they were.
  */
  lemma CollectorsBackOff(s: State, g: Pid, e: Event)
    requires Enabled(s, e)
    requires || (e == Claim(g) && s.gcs[g].sha !in s.ledger)
             || (e == Recheck(g) && exists r <- s.index :: s.gcs[g].sha in s.index[r])
    ensures Apply(s, e) == s.(gcs := s.gcs - {g})
  {
  }
}
