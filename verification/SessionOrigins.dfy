/**
  Who may do what to an account, over whole runs: where a session, a password, a revocation
  and an administrator's decision come from, and what each request does when it runs alone.
  Nothing here is said in terms of the server's own checks.
*/
module SessionOrigins {
  import opened Options
  import opened Accounts
  import opened Sessions

  /** hash is the password of an account that is neither suspended nor waiting to be admitted. */
  predicate Knows(s: State, u: Id, hash: Hash) {
    u in s.users && s.users[u].hash == hash && !s.users[u].disabled && !s.users[u].pending
  }

  /** Issued, unexpired, of the account's present epoch, and the account is open. */
  predicate Live(s: State, c: Cookie) {
    && c in s.jar && s.now <= c.expires
    && c.user in s.users && s.users[c.user].epoch == c.epoch
    && !s.users[c.user].disabled && !s.users[c.user].pending
  }

  /** What may happen to an account. */
  datatype Change = NewSession | NewHash | NewEpoch | NewStanding | NewCaller

  ghost predicate Happened(k: Change, s: State, t: State, u: Id) {
    match k
    case NewSession => exists c :: c in t.jar && c !in s.jar && c.user == u
    case NewHash => u in t.users && (u in s.users ==> t.users[u].hash != s.users[u].hash)
    case NewEpoch => u in t.users && (u in s.users ==> t.users[u].epoch != s.users[u].epoch)
    case NewStanding =>
      u in t.users && (u in s.users ==> t.users[u].admin != s.users[u].admin
                                        || t.users[u].disabled != s.users[u].disabled
                                        || t.users[u].pending != s.users[u].pending)
    case NewCaller => Calls(t, u) && !Calls(s, u)
  }

  /** A request is under way that u's cookie identified as a password change of u's. */
  predicate Calls(s: State, u: Id) {
    exists p <- s.flights :: s.flights[p] == Caller(u)
  }

  /** The update can make this change. */
  predicate AsksFor(k: Change, patch: Patch) {
    match k
    case NewEpoch =>
      patch.password.Some? || patch.disabled == Some(true) || (patch.approval.Some? && patch.approval != Some(Approved))
    case NewStanding => patch.isAdmin.Some? || patch.disabled.Some? || patch.approval.Some?
    case NewCaller => false
    case _ => patch.password.Some?
  }

  /** The write can. */
  predicate Makes(k: Change, w: Write) {
    match k
    case NewEpoch => w.SetHash? || (w.SetGated? && w.closed)
    case NewStanding => !w.SetHash?
    case NewCaller => false
    case _ => w.SetHash?
  }

  /** The step entitles somebody to the change: what had to be shown for it, in the state it was shown in. */
  predicate Entitles(k: Change, s: State, e: Event, u: Id) {
    match e
    case ReadForLogin(_, v, hash) => k.NewSession? && v == u && Knows(s, u, hash)
    case SignUp(_, v, _, approval) => v == u && !k.NewCaller? && !(k.NewSession? && approval)
    case BeginChange(_, c) => k.NewCaller? && c.user == u && Live(s, c)
    case ProveCurrent(p, hash) =>
      (k.NewSession? || k.NewHash? || k.NewEpoch?) && p in s.flights && s.flights[p] == Caller(u) && Knows(s, u, hash)
    case BeginLogout(_, c) => k.NewEpoch? && c.user == u && Live(s, c)
    case BeginUpdate(_, c, t, patch) =>
      && t == u && Live(s, c) && s.users[c.user].admin
      && AsksFor(k, patch) && (k.NewSession? ==> c.user == u)
    case Command(v, w) => v == u && !k.NewSession? && Makes(k, w)
    case Revoke(v) => v == u && k.NewEpoch?
    case _ => false
  }

  /** A request under way that is already entitled to it. */
  predicate Entitled(k: Change, f: Flight, u: Id) {
    match f
    case Signing(v, _) => k.NewSession? && v == u
    case Caller(v) => k.NewCaller? && v == u
    case Proven(v) => (k.NewSession? || k.NewHash? || k.NewEpoch?) && v == u
    case Leaving(v) => k.NewEpoch? && v == u
    case Updating(v, t, patch) => t == u && AsksFor(k, patch) && (k.NewSession? ==> v == u)
    case Writing(v, t, todo) => t == u && (exists w <- todo :: Makes(k, w)) && (k.NewSession? ==> v == u)
  }

  predicate SomeEntitled(k: Change, s: State, u: Id) {
    exists p <- s.flights :: Entitled(k, s.flights[p], u)
  }

  function Reached(s: State, es: seq<Event>, i: nat): State
    requires Run(s, es) && i <= |es|
    decreases |es|
  {
    if i == 0 then s else Reached(Apply(s, es[0]), es[1..], i - 1)
  }

  /** What an update decides to write makes no change it was not asked for. */
  lemma TodoMakesWhatIsAsked(k: Change, loaded: User, patch: Patch, w: Write)
    requires w in Todo(loaded, patch) && Makes(k, w)
    ensures AsksFor(k, patch)
  {
    TodoHas(loaded, patch, w);
  }

  lemma TailKeeps(todo: seq<Write>, k: Change)
    requires todo != []
    ensures (exists w <- todo :: Makes(k, w)) <==> Makes(k, todo[0]) || exists w <- todo[1..] :: Makes(k, w)
  {
    assert todo == [todo[0]] + todo[1..];
    assert todo[0] in todo;
  }

  /** A request gets entitled in no other way. */
  lemma EntitledBefore(k: Change, s: State, e: Event, u: Id, q: Pid)
    requires Enabled(s, e) && q in Apply(s, e).flights && Entitled(k, Apply(s, e).flights[q], u)
    ensures SomeEntitled(k, s, u) || Entitles(k, s, e, u)
  {
    if q in s.flights && Apply(s, e).flights[q] == s.flights[q] {
    } else if e.Load? {
      var f := Apply(s, e).flights[q];
      var w :| w in f.todo && Makes(k, w);
      TodoMakesWhatIsAsked(k, s.users[f.target], s.flights[q].patch, w);
    } else if e.WriteNext? {
      TailKeeps(s.flights[q].todo, k);
      assert Entitled(k, s.flights[q], u);
    } else if e.WriteChange? {
      assert Entitled(k, s.flights[q], u);
    }
  }

  lemma WritesByRight(k: Change, s: State, p: Pid, u: Id)
    requires Enabled(s, WriteNext(p)) && (k.NewHash? || k.NewEpoch? || k.NewStanding?)
    requires Happened(k, s, Apply(s, WriteNext(p)), u)
    ensures SomeEntitled(k, s, u)
  {
    var f := s.flights[p];
    assert f.todo[0] in f.todo;
    WriteMakes(s.users, f.target, f.todo[0], u);
    assert Entitled(k, f, u);
  }

  lemma WriteMakes(db: Db, target: Id, w: Write, u: Id)
    requires target in db && u in db
    ensures var after := Written(db, target, w).db;
            && u in after
            && (after[u].hash != db[u].hash ==> u == target && Makes(NewHash, w))
            && (after[u].epoch != db[u].epoch ==> u == target && Makes(NewEpoch, w))
            && (after[u].(hash := db[u].hash, epoch := db[u].epoch) != db[u] ==> u == target && Makes(NewStanding, w))
  {
  }

  lemma CallsByRight(s: State, e: Event, u: Id)
    requires Enabled(s, e) && Happened(NewCaller, s, Apply(s, e), u)
    ensures SomeEntitled(NewCaller, s, u) || Entitles(NewCaller, s, e, u)
  {
    var q :| q in Apply(s, e).flights && Apply(s, e).flights[q] == Caller(u);
    EntitledBefore(NewCaller, s, e, u, q);
  }

  lemma SignsByRight(s: State, e: Event, u: Id)
    requires Enabled(s, e) && Happened(NewSession, s, Apply(s, e), u)
    ensures SomeEntitled(NewSession, s, u)
  {
    assert e.Sign? && Entitled(NewSession, s.flights[e.p], u);
  }

  /** And a change happens in no other way. */
  lemma HappensByRight(k: Change, s: State, e: Event, u: Id)
    requires Enabled(s, e) && Happened(k, s, Apply(s, e), u)
    ensures SomeEntitled(k, s, u) || Entitles(k, s, e, u)
  {
    if k.NewSession? {
      SignsByRight(s, e, u);
    } else if k.NewCaller? {
      CallsByRight(s, e, u);
    } else if e.WriteNext? {
      WritesByRight(k, s, e.p, u);
    }
  }

  lemma {:induction false} EntitledAtSomeStep(k: Change, s: State, es: seq<Event>, u: Id)
    requires Run(s, es) && Happened(k, s, After(s, es), u)
    ensures SomeEntitled(k, s, u) || exists i: nat :: i < |es| && Entitles(k, Reached(s, es, i), es[i], u)
    decreases |es|
  {
    if es != [] {
      var s1, tail := Apply(s, es[0]), es[1..];
      if Happened(k, s, s1, u) {
        HappensByRight(k, s, es[0], u);
        assert Reached(s, es, 0) == s;
      } else {
        EntitledAtSomeStep(k, s1, tail, u);
        if q :| q in s1.flights && Entitled(k, s1.flights[q], u) {
          EntitledBefore(k, s, es[0], u, q);
          assert Reached(s, es, 0) == s;
        } else {
          var i: nat :| i < |tail| && Entitles(k, Reached(s1, tail, i), tail[i], u);
          assert Reached(s, es, i + 1) == Reached(s1, tail, i) && es[i + 1] == tail[i];
        }
      }
    }
  }

  /**
    Authorisation, over every run: a new session, another password, a revocation or another
    standing comes about only where its right was shown in the state the run had then reached:
    the account's password, its own live cookie, an administrator's live cookie and an update
    that asks for it, the operator, or signing up.
  */
  lemma ChangesAreByRight(k: Change, s: State, es: seq<Event>, u: Id)
    requires Run(s, es) && !SomeEntitled(k, s, u) && Happened(k, s, After(s, es), u)
    ensures exists i: nat :: i < |es| && Entitles(k, Reached(s, es, i), es[i], u)
  {
    EntitledAtSomeStep(k, s, es, u);
  }

  // ------------------------------------------------------------------ strangers

  /** No request is under way for u, and no cookie of u's is of its present epoch or a later one. */
  predicate NobodyIn(s: State, u: Id) {
    && (forall p <- s.flights :: s.flights[p].user != u)
    && (forall c <- s.jar :: c.user == u ==> u in s.users && c.epoch < s.users[u].epoch)
  }

  /** Nobody signs u up, and no sign-in shows the password u has at that moment. */
  predicate NobodyKnocks(s: State, es: seq<Event>, u: Id)
    requires Run(s, es)
    decreases |es|
  {
    es == [] ||
      (&& (es[0].SignUp? ==> es[0].user != u)
       && (es[0].ReadForLogin? && es[0].user == u && u in s.users ==> es[0].hash != s.users[u].hash)
       && NobodyKnocks(Apply(s, es[0]), es[1..], u))
  }

  lemma NobodyGetsIn(s: State, e: Event, u: Id)
    requires Enabled(s, e) && NobodyIn(s, u) && (e.SignUp? ==> e.user != u)
    requires e.ReadForLogin? && e.user == u && u in s.users ==> e.hash != s.users[u].hash
    ensures NobodyIn(Apply(s, e), u)
  {
    if u in s.users { EpochCountsStep(s, e, u); }
  }

  /**
    So whoever has neither the password nor a live cookie stays out, whatever others do to the
    account meanwhile: resets, suspensions, restores and revocations included.
  */
  lemma {:induction false} StrangersStayOut(s: State, es: seq<Event>, u: Id, c: Cookie)
    requires Run(s, es) && NobodyIn(s, u) && NobodyKnocks(s, es, u) && c.user == u
    ensures !Live(After(s, es), c) && !Authenticates(After(s, es), c)
    decreases |es|
  {
    if es != [] {
      NobodyGetsIn(s, es[0], u);
      StrangersStayOut(Apply(s, es[0]), es[1..], u, c);
    }
  }

  // ----------------------------------------------------- each request, running alone

  /** A sign-in with the right password leaves a live cookie and changes nothing else; any other leaves no trace. */
  lemma SignInWorksExactlyWhenKnown(s: State, p: Pid, u: Id, hash: Hash, ttl: nat)
    requires Enabled(s, ReadForLogin(p, u, hash))
    ensures var t := Apply(s, ReadForLogin(p, u, hash));
            && (Knows(s, u, hash) <==> Enabled(t, Sign(p, ttl)))
            && (!Knows(s, u, hash) ==> t == s)
            && (Knows(s, u, hash) ==>
                  var c := Cookie(u, s.users[u].epoch, s.now + ttl);
                  Apply(t, Sign(p, ttl)) == s.(jar := s.jar + {c}) && Live(Apply(t, Sign(p, ttl)), c))
  {
    if Knows(s, u, hash) { assert s.flights[p := Signing(u, s.users[u].epoch)] - {p} == s.flights; }
  }

  /** A new account has no rights and its own password, and is signed in unless it has to be admitted first. */
  lemma SignUpSignsInExactlyWhenOpen(s: State, p: Pid, u: Id, hash: Hash, approval: bool, ttl: nat)
    requires Enabled(s, SignUp(p, u, hash, approval))
    ensures var t := Apply(s, SignUp(p, u, hash, approval));
            && t.users == s.users[u := User(false, false, approval, hash, 0)]
            && (Enabled(t, Sign(p, ttl)) <==> !approval) && (Knows(t, u, hash) <==> !approval)
            && (approval ==> t.flights == s.flights && t.jar == s.jar)
            && (!approval ==>
                  var c := Cookie(u, 0, s.now + ttl);
                  Apply(t, Sign(p, ttl)) == t.(jar := s.jar + {c}, flights := s.flights)
                  && Live(Apply(t, Sign(p, ttl)), c))
  {
    if !approval { assert s.flights[p := Signing(u, 0)] - {p} == s.flights; }
  }

  /** A password change goes through exactly for a live cookie and the right old password. */
  lemma ChangeWorksExactlyWhenKnown(s: State, p: Pid, c: Cookie, was: Hash, hash: Hash, ttl: nat)
    requires Enabled(s, BeginChange(p, c))
    ensures var s1 := Apply(s, BeginChange(p, c));
            && (Live(s, c) <==> Enabled(s1, ProveCurrent(p, was)))
            && (!Live(s, c) ==> s1 == s)
            && (Live(s, c) ==>
                  var s2 := Apply(s1, ProveCurrent(p, was));
                  && (Knows(s, c.user, was) <==> Enabled(s2, WriteChange(p, hash)))
                  && (!Knows(s, c.user, was) ==> s2 == s))
  {
    if Live(s, c) { assert !Knows(s, c.user, was) ==> s.flights[p := Caller(c.user)] - {p} == s.flights; }
  }

  /** And leaves the new password, the next epoch, and its caller's new cookie. */
  lemma ChangeLeavesTheNewPassword(s: State, p: Pid, hash: Hash, ttl: nat)
    requires p in s.flights && s.flights[p].Proven? && s.flights[p].user in s.users
    ensures var u := s.flights[p].user;
            var was := s.users[u];
            var c := Cookie(u, was.epoch + 1, s.now + ttl);
            Apply(Apply(s, WriteChange(p, hash)), Sign(p, ttl)) ==
            State(s.users[u := User(was.admin, was.disabled, was.pending, hash, was.epoch + 1)],
                  s.jar + {c}, s.flights - {p}, s.now)
  {
    var u := s.flights[p].user;
    assert s.flights[p := Signing(u, s.users[u].epoch + 1)] - {p} == s.flights - {p};
  }

  /** A logout ends every session of its caller's account and nobody else's; without a live cookie it does nothing. */
  lemma LogoutEndsEverySession(s: State, p: Pid, c: Cookie, d: Cookie)
    requires Inv(s) && Enabled(s, BeginLogout(p, c))
    ensures var t := Apply(s, BeginLogout(p, c));
            && (Live(s, c) <==> Enabled(t, FinishLogout(p)))
            && (!Live(s, c) ==> t == s)
            && (Live(s, c) ==>
                  && Apply(t, FinishLogout(p)).flights == s.flights && Apply(t, FinishLogout(p)).jar == s.jar
                  && (Live(Apply(t, FinishLogout(p)), d) <==> Live(s, d) && d.user != c.user)
                  && Knows(Apply(t, FinishLogout(p)), c.user, s.users[c.user].hash))
  {
    if Live(s, c) { assert s.flights[p := Leaving(c.user)] - {p} == s.flights; }
  }

  /** Where its writes leave a request: at a cookie after a reset of one's own password, else at nothing. */
  predicate Finished(t: State, p: Pid, f: Flight, done: Step)
    requires f.Writing?
  {
    if done.refused then p !in t.flights
    else if f.todo != [] && f.todo[|f.todo| - 1].SetHash? && f.target == f.user then
      p in t.flights && f.target in t.users && t.flights[p] == Signing(f.user, t.users[f.target].epoch)
    else p in t.flights && t.flights[p] == Writing(f.user, f.target, [])
  }

  /** An update that decided on its writes makes them, in order, up to a refusal. */
  lemma {:induction false} WritesToTheEnd(s: State, p: Pid) returns (es: seq<Event>)
    requires p in s.flights && s.flights[p].Writing? && s.flights[p].target in s.users
    requires var todo := s.flights[p].todo; forall i :: 0 <= i < |todo| - 1 ==> !todo[i].SetHash?
    ensures Run(s, es) && forall e <- es :: OwnStep(e, p)
    ensures var t, f := After(s, es), s.flights[p];
            var done := Performed(s.users, f.target, f.todo);
            t.users == done.db && t.jar == s.jar && t.now == s.now && Finished(t, p, f, done)
    decreases |s.flights[p].todo|
  {
    var f := s.flights[p];
    if f.todo == [] { return []; }
    var s1 := Apply(s, WriteNext(p));
    if Written(s.users, f.target, f.todo[0]).refused || |f.todo| == 1 {
      PerformedOne(s.users, f.target, f.todo[0]);
      assert |f.todo| == 1 ==> f.todo == [f.todo[0]];
      OneStep(s, WriteNext(p));
      return [WriteNext(p)];
    }
    var rest := WritesToTheEnd(s1, p);
    RunCons(s, WriteNext(p), rest);
    es := [WriteNext(p)] + rest;
  }

  /** An administrator's update gets as far as its writes exactly when the handler does not refuse it. */
  lemma UpdateBegins(s: State, p: Pid, c: Cookie, target: Id, patch: Patch)
    requires p !in s.flights
    ensures var begin := BeginUpdate(p, c, target, patch);
            && (Apply(s, begin) == s <==> !(Live(s, c) && s.users[c.user].admin))
            && (Live(s, c) && s.users[c.user].admin ==>
                  && Enabled(Apply(s, begin), Load(p))
                  && var t := Apply(Apply(s, begin), Load(p));
                     if Refusal(s.users, c.user, target, patch, true, true).Some? then t == s
                     else target in s.users
                          && t == s.(flights := s.flights[p := Writing(c.user, target, Todo(s.users[target], patch))]))
  {
    if Live(s, c) && s.users[c.user].admin {
      var f := Updating(c.user, target, patch);
      assert s.flights[p := f] - {p} == s.flights;
      assert Apply(s, BeginUpdate(p, c, target, patch)) == s.(flights := s.flights[p := f]) != s;
    }
  }

  /** t is s after u's update of the target: the handler's writes, and a cookie to come for u's own reset. */
  predicate Handled(s: State, t: State, p: Pid, u: Id, target: Id, patch: Patch)
    requires target in s.users
  {
    var w := GuardedWrites(s.users, target, patch);
    && t.jar == s.jar && t.now == s.now
    && target in w.db
    && t.users == (if w.refused || patch.password.None? then w.db else SetPassword(w.db, target, patch.password.value))
    && (p in t.flights && t.flights[p].Signing? <==> !w.refused && patch.password.Some? && target == u)
    && (p in t.flights && t.flights[p].Signing? ==>
          target in t.users && t.flights[p] == Signing(u, t.users[target].epoch))
  }

  lemma DecidedIsTheHandler(s: State, p: Pid, patch: Patch) returns (es: seq<Event>)
    requires p in s.flights && s.flights[p].Writing? && s.flights[p].target in s.users
    requires s.flights[p].todo == Todo(s.users[s.flights[p].target], patch)
    ensures Run(s, es) && (forall e <- es :: OwnStep(e, p))
    ensures Handled(s, After(s, es), p, s.flights[p].user, s.flights[p].target, patch)
  {
    var target := s.flights[p].target;
    TodoEnds(s.users[target], patch);
    PerformedIsTheUpdate(s.users, target, patch);
    es := WritesToTheEnd(s, p);
  }

  /**
    Left alone, an update that is not refused beforehand does to the accounts what the handler
    does, and goes on to a cookie exactly when it has reset its caller's own password.
  */
  lemma UpdateAloneIsTheHandler(s: State, p: Pid, c: Cookie, target: Id, patch: Patch) returns (es: seq<Event>)
    requires p !in s.flights && Live(s, c) && s.users[c.user].admin
    requires Refusal(s.users, c.user, target, patch, true, true).None?
    ensures Run(s, es) && (forall e <- es :: OwnStep(e, p) || e == BeginUpdate(p, c, target, patch))
    ensures Handled(s, After(s, es), p, c.user, target, patch)
  {
    UpdateBegins(s, p, c, target, patch);
    var begin := BeginUpdate(p, c, target, patch);
    var rest := DecidedIsTheHandler(Apply(Apply(s, begin), Load(p)), p, patch);
    RunCons(Apply(s, begin), Load(p), rest);
    RunCons(s, begin, [Load(p)] + rest);
    es := [begin] + ([Load(p)] + rest);
  }

  /** The operator's commands: a reset takes the account's sessions away, a promotion takes nothing from anybody. */
  lemma CommandsReachEveryAccount(s: State, u: Id, hash: Hash, d: Cookie)
    requires Inv(s) && u in s.users
    ensures forall w :: Enabled(s, Command(u, w)) <==> w.SetHash? || w == SetFlag(true)
    ensures var t := Apply(s, Command(u, SetHash(hash)));
            t.users[u].hash == hash && (Live(t, d) <==> Live(s, d) && d.user != u)
    ensures var t := Apply(s, Command(u, SetFlag(true)));
            t.users[u].admin && (Live(t, d) <==> Live(s, d))
  {
  }

  /** A request that dies takes nothing with it but itself. */
  lemma TheDeadLeaveNothing(s: State, p: Pid)
    requires p in s.flights
    ensures Enabled(s, Died(p)) && Apply(s, Died(p)) == State(s.users, s.jar, s.flights - {p}, s.now)
  {
  }

  /** How much time the run lets pass. */
  function Elapsed(es: seq<Event>): nat
    decreases |es|
  {
    if es == [] then 0 else (if es[0].Tick? then es[0].d else 0) + Elapsed(es[1..])
  }

  lemma {:induction false} OnlyTicksPassTime(s: State, es: seq<Event>)
    requires Run(s, es)
    ensures After(s, es).now == s.now + Elapsed(es)
    decreases |es|
  {
    if es != [] { OnlyTicksPassTime(Apply(s, es[0]), es[1..]); }
  }

  /** A cookie is good for its lifetime and not a second longer, whatever is done to the account. */
  lemma CookiesRunOut(s: State, es: seq<Event>, c: Cookie)
    requires Run(s, es) && s.now + Elapsed(es) > c.expires
    ensures !Live(After(s, es), c) && !Authenticates(After(s, es), c)
  {
    OnlyTicksPassTime(s, es);
  }
}
