/**
  Session cookies over whole runs. A cookie is stateless: it carries the epoch its request
  read, and is honoured while the account row still holds that epoch. Requests are several
  steps long and race with every revocation.
*/
module Sessions {
  import opened Options
  import opened Accounts

  type Pid = nat

  /** Only values this server signed verify, so the jar is the set of cookies issued so far. */
  datatype Cookie = Cookie(user: Id, epoch: nat, expires: nat)

  /** A request between two of its steps. */
  datatype Flight =
    | Signing(user: Id, epoch: nat)   // about to issue a cookie for the epoch it holds
    | Caller(user: Id)                // a password change, identified by its cookie
    | Proven(user: Id)                // ... which has shown the current password
    | Leaving(user: Id)               // a logout, identified by its cookie
    | Updating(user: Id, target: Id, patch: Patch)        // an administrator's update, identified by its cookie
    | Writing(user: Id, target: Id, todo: seq<Write>)     // ... which has decided on its writes

  datatype State = State(users: Db, jar: set<Cookie>, flights: map<Pid, Flight>, now: nat)

  /** resolveCredential and resolveIdentity, for the cookie. */
  predicate Authenticates(s: State, c: Cookie) {
    && c in s.jar && s.now <= c.expires
    && c.user in s.users && s.users[c.user].epoch == c.epoch && !s.users[c.user].Blocked()
  }

  /** checkPassword answering passwordOK. */
  predicate PasswordOk(s: State, u: Id, hash: Hash) {
    u in s.users && s.users[u].hash == hash && !s.users[u].Blocked()
  }

  datatype Event =
    | ReadForLogin(p: Pid, user: Id, hash: Hash)
    | SignUp(p: Pid, user: Id, hash: Hash, approval: bool)   // approval: an administrator must admit it first
    | Sign(p: Pid, ttl: nat)
    | BeginChange(p: Pid, cookie: Cookie)
    | ProveCurrent(p: Pid, hash: Hash)
    | WriteChange(p: Pid, hash: Hash)
    | BeginLogout(p: Pid, cookie: Cookie)
    | FinishLogout(p: Pid)
    | Died(p: Pid)
    | BeginUpdate(p: Pid, cookie: Cookie, target: Id, patch: Patch)
    | Load(p: Pid)
    | WriteNext(p: Pid)
    | Command(user: Id, write: Write)   // the operator's passwd and promote
    | Revoke(user: Id)
    | Tick(d: nat)

  predicate Enabled(s: State, e: Event) {
    match e
    case ReadForLogin(p, _, _) => p !in s.flights
    case SignUp(p, u, _, _) => p !in s.flights && u !in s.users
    case Sign(p, _) => p in s.flights && s.flights[p].Signing?
    case BeginChange(p, _) => p !in s.flights
    case ProveCurrent(p, _) => p in s.flights && s.flights[p].Caller?
    case WriteChange(p, _) => p in s.flights && s.flights[p].Proven? && s.flights[p].user in s.users
    case BeginLogout(p, _) => p !in s.flights
    case FinishLogout(p) => p in s.flights && s.flights[p].Leaving? && s.flights[p].user in s.users
    case Died(p) => p in s.flights
    case BeginUpdate(p, _, _, _) => p !in s.flights
    case Load(p) => p in s.flights && s.flights[p].Updating?
    case WriteNext(p) =>
      p in s.flights && s.flights[p].Writing? && s.flights[p].todo != [] && s.flights[p].target in s.users
    case Command(u, w) => u in s.users && (w.SetHash? || w == SetFlag(true))
    case Revoke(u) => u in s.users
    case Tick(_) => true
  }

  function Bump(db: Db, u: Id): Db
    requires u in db
  {
    db[u := db[u].(epoch := db[u].epoch + 1)]
  }

  /** requireSiteAdmin lets the update in. */
  predicate Administers(s: State, c: Cookie) {
    Authenticates(s, c) && s.users[c.user].admin
  }

  /** An update after its next write: a reset of one's own password goes on to a cookie, a refusal to nothing. */
  function Onward(flights: map<Pid, Flight>, p: Pid, done: Step): map<Pid, Flight>
    requires p in flights && flights[p].Writing? && flights[p].todo != [] && flights[p].target in done.db
  {
    var f := flights[p];
    if done.refused then flights - {p}
    else if f.todo[0].SetHash? && f.target == f.user then flights[p := Signing(f.user, done.db[f.target].epoch)]
    else flights[p := f.(todo := f.todo[1..])]
  }

  function Apply(s: State, e: Event): State
    requires Enabled(s, e)
  {
    match e
    case ReadForLogin(p, u, hash) =>
      if PasswordOk(s, u, hash) then s.(flights := s.flights[p := Signing(u, s.users[u].epoch)]) else s
    case SignUp(p, u, hash, approval) =>
      s.(users := s.users[u := User(false, false, approval, hash, 0)],
         flights := if approval then s.flights else s.flights[p := Signing(u, 0)])
    case Sign(p, ttl) =>
      var f := s.flights[p];
      s.(jar := s.jar + {Cookie(f.user, f.epoch, s.now + ttl)}, flights := s.flights - {p})
    case BeginChange(p, c) => if Authenticates(s, c) then s.(flights := s.flights[p := Caller(c.user)]) else s
    case ProveCurrent(p, hash) =>
      var u := s.flights[p].user;
      if PasswordOk(s, u, hash) then s.(flights := s.flights[p := Proven(u)]) else s.(flights := s.flights - {p})
    case WriteChange(p, hash) =>
      var u := s.flights[p].user;
      var db := SetPassword(s.users, u, hash);
      s.(users := db, flights := s.flights[p := Signing(u, db[u].epoch)])
    case BeginLogout(p, c) => if Authenticates(s, c) then s.(flights := s.flights[p := Leaving(c.user)]) else s
    case FinishLogout(p) => s.(users := Bump(s.users, s.flights[p].user), flights := s.flights - {p})
    case Died(p) => s.(flights := s.flights - {p})
    case BeginUpdate(p, c, t, patch) =>
      if Administers(s, c) then s.(flights := s.flights[p := Updating(c.user, t, patch)]) else s
    case Load(p) =>
      var f := s.flights[p];
      if Refusal(s.users, f.user, f.target, f.patch, true, true).Some? then s.(flights := s.flights - {p})
      else s.(flights := s.flights[p := Writing(f.user, f.target, Todo(s.users[f.target], f.patch))])
    case WriteNext(p) =>
      var f := s.flights[p];
      var done := Written(s.users, f.target, f.todo[0]);
      s.(users := done.db, flights := Onward(s.flights, p, done))
    case Command(u, w) => s.(users := Written(s.users, u, w).db)
    case Revoke(u) => s.(users := Bump(s.users, u))
    case Tick(d) => s.(now := s.now + d)
  }

  /** The steps meant to end u's sessions: logout, password change or reset, a closing gate, revocation. */
  predicate Revokes(s: State, e: Event, u: Id)
    requires Enabled(s, e)
  {
    match e
    case WriteChange(p, _) => s.flights[p].user == u
    case FinishLogout(p) => s.flights[p].user == u
    case WriteNext(p) => s.flights[p].target == u && Ends(s.users, u, s.flights[p].todo[0])
    case Command(v, w) => v == u && Ends(s.users, u, w)
    case Revoke(v) => v == u
    case _ => false
  }

  predicate Run(s: State, es: seq<Event>)
    decreases |es|
  {
    es == [] || (Enabled(s, es[0]) && Run(Apply(s, es[0]), es[1..]))
  }

  function After(s: State, es: seq<Event>): State
    requires Run(s, es)
    decreases |es|
  {
    if es == [] then s else After(Apply(s, es[0]), es[1..])
  }

  function Revocations(s: State, es: seq<Event>, u: Id): nat
    requires Run(s, es)
    decreases |es|
  {
    if es == [] then 0
    else (if Revokes(s, es[0], u) then 1 else 0) + Revocations(Apply(s, es[0]), es[1..], u)
  }

  /**
    The epoch of an account counts its revocations, and between two of them nothing locks it or
    changes its password.
  */
  lemma {:induction false} EpochCounts(s: State, es: seq<Event>, u: Id)
    requires Run(s, es) && u in s.users
    ensures var t := After(s, es);
            && u in t.users && t.users[u].epoch == s.users[u].epoch + Revocations(s, es, u)
            && (Revocations(s, es, u) == 0 ==>
                  t.users[u].hash == s.users[u].hash && (t.users[u].Blocked() ==> s.users[u].Blocked()))
    decreases |es|
  {
    if es != [] {
      EpochCountsStep(s, es[0], u);
      EpochCounts(Apply(s, es[0]), es[1..], u);
    }
  }

  lemma EpochCountsStep(s: State, e: Event, u: Id)
    requires Enabled(s, e) && u in s.users
    ensures var t := Apply(s, e);
            && u in t.users && t.users[u].epoch == s.users[u].epoch + (if Revokes(s, e, u) then 1 else 0)
            && (!Revokes(s, e, u) ==>
                  t.users[u].hash == s.users[u].hash && (t.users[u].Blocked() ==> s.users[u].Blocked()))
  {
  }

  /**
    Exactly how long a cookie lives. Let a request read an open account's epoch in state s,
    and let es be everything that happens afterwards, the issuing of the cookie included.
    The cookie authenticates at the end if and only if it was issued, has not expired, and
    no revocation of the account happened since that read. A login that raced a revocation,
    a suspension since lifted and a cookie signed late are all covered.
  */
  lemma CookieLivesUntilRevoked(s: State, es: seq<Event>, c: Cookie)
    requires Run(s, es) && c.user in s.users && s.users[c.user].epoch == c.epoch && !s.users[c.user].Blocked()
    ensures Authenticates(After(s, es), c) <==>
            c in After(s, es).jar && After(s, es).now <= c.expires && Revocations(s, es, c.user) == 0
  {
    EpochCounts(s, es, c.user);
  }

  /** So no session outlives the password it was opened with. */
  lemma SessionsKeepTheirPassword(s: State, es: seq<Event>, c: Cookie)
    requires Run(s, es) && c.user in s.users && s.users[c.user].epoch == c.epoch
    requires Authenticates(After(s, es), c)
    ensures After(s, es).users[c.user].hash == s.users[c.user].hash
  {
    EpochCounts(s, es, c.user);
  }

  // ---------------------------------------------------------- no early epochs

  /** Writes to one's own account that the update handler lets by: none of them shuts it, and a password comes last. */
  predicate Gentle(todo: seq<Write>) {
    && (forall w <- todo :: w != SetFlag(false) && (w.SetGated? ==> !w.closed))
    && (forall i :: 0 <= i < |todo| - 1 ==> !todo[i].SetHash?)
  }

  predicate FlightOk(s: State, f: Flight) {
    && f.user in s.users
    && (f.Signing? ==> f.epoch <= s.users[f.user].epoch)
    && (f.Writing? ==> f.target in s.users && (f.target == f.user ==> Gentle(f.todo)))
  }

  /** Nobody holds an epoch the account has not reached, so a dead cookie cannot come back. */
  ghost predicate Inv(s: State) {
    && (forall c <- s.jar :: c.user in s.users && c.epoch <= s.users[c.user].epoch)
    && (forall p <- s.flights :: FlightOk(s, s.flights[p]))
  }

  lemma {:induction false} InvRun(s: State, es: seq<Event>)
    requires Inv(s) && Run(s, es)
    ensures Inv(After(s, es))
    decreases |es|
  {
    if es != [] {
      InvStep(s, es[0]);
      InvRun(Apply(s, es[0]), es[1..]);
    }
  }

  lemma InvLoad(s: State, p: Pid)
    requires Inv(s) && Enabled(s, Load(p))
    ensures Inv(Apply(s, Load(p)))
  {
    var f := s.flights[p];
    if f.target in s.users { TodoOpens(s.users[f.target], f.patch); }
  }

  /** A write moves epochs up only. */
  lemma WrittenKeeps(db: Db, u: Id, w: Write)
    requires u in db
    ensures var after := Written(db, u, w).db;
            after.Keys == db.Keys && forall v <- db :: db[v].epoch <= after[v].epoch
  {
  }

  lemma GentleTail(todo: seq<Write>)
    requires todo != [] && Gentle(todo)
    ensures Gentle(todo[1..])
  {
    assert forall w <- todo[1..] :: w in todo;
  }

  lemma FlightStaysOk(s: State, s': State, f: Flight)
    requires FlightOk(s, f) && s'.users.Keys == s.users.Keys
    requires forall v <- s.users :: s.users[v].epoch <= s'.users[v].epoch
    ensures FlightOk(s', f)
  {
  }

  lemma InvWriteNext(s: State, p: Pid)
    requires Inv(s) && Enabled(s, WriteNext(p))
    ensures Inv(Apply(s, WriteNext(p)))
  {
    var s', f := Apply(s, WriteNext(p)), s.flights[p];
    WrittenKeeps(s.users, f.target, f.todo[0]);
    if f.target == f.user { GentleTail(f.todo); }
    forall q <- s'.flights ensures FlightOk(s', s'.flights[q]) {
      if q != p { FlightStaysOk(s, s', s.flights[q]); }
    }
  }

  lemma InvStep(s: State, e: Event)
    requires Inv(s) && Enabled(s, e)
    ensures Inv(Apply(s, e))
  {
    if e.Load? {
      InvLoad(s, e.p);
    } else if e.WriteNext? {
      InvWriteNext(s, e.p);
    }
  }

  /** A cookie refused for its epoch is refused for good, through restores, admissions and later logins. */
  lemma DeadCookiesStayDead(s: State, es: seq<Event>, c: Cookie)
    requires Inv(s) && Run(s, es) && c in s.jar && s.users[c.user].epoch != c.epoch
    ensures !Authenticates(After(s, es), c)
  {
    EpochCounts(s, es, c.user);
  }

  /**
    A password change signs its own caller back in and everybody else out: whatever else
    runs between its write and its signature, short of another revocation of the account,
    the new cookie authenticates and no cookie issued before the write does.
  */
  lemma ChangeKeepsOnlyItsCaller(s: State, p: Pid, hash: Hash, between: seq<Event>, ttl: nat)
    requires Inv(s) && Enabled(s, WriteChange(p, hash)) && !s.users[s.flights[p].user].Blocked()
    requires var s1 := Apply(s, WriteChange(p, hash));
             && Run(s1, between) && Revocations(s1, between, s.flights[p].user) == 0
             && p in After(s1, between).flights && After(s1, between).flights[p] == s1.flights[p]
    ensures var u := s.flights[p].user;
            var t := Apply(After(Apply(s, WriteChange(p, hash)), between), Sign(p, ttl));
            && Authenticates(t, Cookie(u, s.users[u].epoch + 1, t.now + ttl))
            && forall c <- s.jar :: c.user == u ==> !Authenticates(t, c)
  {
    var s1 := Apply(s, WriteChange(p, hash));
    EpochCounts(s1, between, s.flights[p].user);
  }

  // --------------------------------------------------- requests that outlive a revocation

  /** A step the request of p takes on what it has already shown; another password check is not one. */
  predicate OwnStep(e: Event, p: Pid) {
    match e
    case Sign(q, _) => q == p
    case WriteChange(q, _) => q == p
    case FinishLogout(q) => q == p
    case Load(q) => q == p
    case WriteNext(q) => q == p
    case Died(q) => q == p
    case _ => false
  }

  /** Left to finish on its own, the request can still open a session. */
  ghost predicate CanStillOpen(s: State, p: Pid) {
    exists es: seq<Event>, c: Cookie ::
      Run(s, es) && (forall e <- es :: OwnStep(e, p)) && c !in s.jar && Authenticates(After(s, es), c)
  }

  /** What the handler lets an administrator ask for their own account. */
  predicate KeepsItselfIn(patch: Patch) {
    && patch.isAdmin != Some(false) && patch.disabled != Some(true)
    && (patch.approval.None? || patch.approval == Some(Approved))
  }

  /**
    The request will open a session on this account whatever happens to its sessions: a password
    change that has shown the password, on an open account; or an administrator's reset of their
    own password, on an account that is open or that the same update opens.
  */
  predicate Outlives(f: Flight, user: User) {
    match f
    case Proven(_) => !user.Blocked()
    case Updating(u, t, patch) =>
      && t == u && patch.password.Some? && KeepsItselfIn(patch)
      && (user.disabled ==> patch.disabled == Some(false)) && (user.pending ==> patch.approval == Some(Approved))
    case Writing(u, t, todo) =>
      && t == u && todo != [] && todo[|todo| - 1].SetHash?
      && (user.disabled ==> SetGated(Suspension, false) in todo)
      && (user.pending ==> SetGated(Admission, false) in todo)
    case _ => false
  }

  /** What a request has in hand that will open a session: an epoch that is current, or one it will write. */
  predicate Holds(s: State, p: Pid) {
    && p in s.flights && s.flights[p].user in s.users
    && var user := s.users[s.flights[p].user];
       Outlives(s.flights[p], user)
       || (s.flights[p].Signing? && s.flights[p].epoch == user.epoch && !user.Blocked())
  }

  lemma OneStep(s: State, e: Event)
    requires Enabled(s, e)
    ensures Run(s, [e]) && After(s, [e]) == Apply(s, e)
  {
    assert [e][1..] == [] && After(Apply(s, e), []) == Apply(s, e);
  }

  lemma RunCons(s: State, e: Event, es: seq<Event>)
    requires Enabled(s, e) && Run(Apply(s, e), es)
    ensures Run(s, [e] + es) && After(s, [e] + es) == After(Apply(s, e), es)
  {
    assert ([e] + es)[1..] == es;
  }

  /** A cookie the request has not issued: one later than any in the jar, by its expiry. */
  lemma FreshExpiry(jar: set<Cookie>) returns (ttl: nat)
    ensures forall c <- jar :: c.expires < ttl
    decreases jar
  {
    if jar == {} { return 0; }
    var c :| c in jar;
    ttl := FreshExpiry(jar - {c});
    ttl := if c.expires < ttl then ttl else c.expires + 1;
    forall d <- jar ensures d.expires < ttl {
      assert d == c || d in jar - {c};
    }
  }

  /** How many steps a request that holds something is from its cookie. */
  function Distance(f: Flight): nat {
    match f
    case Proven(_) => 1
    case Updating(_, _, _) => 6
    case Writing(_, _, todo) => |todo|
    case _ => 0
  }

  lemma TodoHas(loaded: User, patch: Patch, w: Write)
    ensures w in Todo(loaded, patch) <==> w in FlagTodo(loaded, patch) || w in SuspensionTodo(loaded, patch)
                                          || w in AdmissionTodo(patch) || w in PasswordTodo(patch)
  {
  }

  lemma TodoEnds(loaded: User, patch: Patch)
    ensures var todo := Todo(loaded, patch);
            && |todo| <= 4 && (forall i :: 0 <= i < |todo| - 1 ==> !todo[i].SetHash?)
            && (patch.password.Some? <==> todo != [] && todo[|todo| - 1].SetHash?)
  {
  }

  /** What an update decides to write: a password last, and every gate it has to open. */
  lemma TodoOpens(loaded: User, patch: Patch)
    ensures var todo := Todo(loaded, patch);
            && |todo| <= 4
            && (patch.password.Some? <==> todo != [] && todo[|todo| - 1].SetHash?)
            && (SetGated(Suspension, false) in todo <==> patch.disabled == Some(false) && loaded.disabled)
            && (SetGated(Admission, false) in todo <==> patch.approval == Some(Approved))
    ensures KeepsItselfIn(patch) ==> Gentle(Todo(loaded, patch))
  {
    TodoEnds(loaded, patch);
    TodoHas(loaded, patch, SetGated(Suspension, false));
    TodoHas(loaded, patch, SetGated(Admission, false));
    forall w <- Todo(loaded, patch)
      ensures KeepsItselfIn(patch) ==> w != SetFlag(false) && (w.SetGated? ==> !w.closed)
    {
      TodoHas(loaded, patch, w);
    }
  }

  lemma LoadHolds(s: State, p: Pid)
    requires Inv(s) && p in s.flights && s.flights[p].Updating?
    ensures Holds(Apply(s, Load(p)), p) <==> Holds(s, p)
    ensures Holds(s, p) ==> Distance(Apply(s, Load(p)).flights[p]) < 6
  {
    TodoOpens(s.users[s.flights[p].user], s.flights[p].patch);
  }

  lemma TailOpens(todo: seq<Write>, w: Write)
    requires todo != []
    ensures w in todo <==> todo[0] == w || w in todo[1..]
  {
    assert todo == [todo[0]] + todo[1..];
  }

  lemma WriteNextHolds(s: State, p: Pid)
    requires Inv(s) && Enabled(s, WriteNext(p)) && s.flights[p].target == s.flights[p].user
    ensures Holds(Apply(s, WriteNext(p)), p) <==> Holds(s, p)
    ensures Holds(s, p) ==> Distance(Apply(s, WriteNext(p)).flights[p]) < Distance(s.flights[p])
  {
    var todo := s.flights[p].todo;
    assert todo[0] in todo;
    TailOpens(todo, SetGated(Suspension, false));
    TailOpens(todo, SetGated(Admission, false));
  }

  /** A request that holds something goes on to open a session. */
  lemma HoldersFinish(s: State, p: Pid) returns (es: seq<Event>, c: Cookie)
    requires Inv(s) && Holds(s, p)
    ensures Run(s, es) && (forall e <- es :: OwnStep(e, p)) && c !in s.jar && Authenticates(After(s, es), c)
    decreases Distance(s.flights[p])
  {
    var f := s.flights[p];
    if f.Signing? {
      var ttl := FreshExpiry(s.jar);
      OneStep(s, Sign(p, ttl));
      return [Sign(p, ttl)], Cookie(f.user, f.epoch, s.now + ttl);
    }
    var e := if f.Proven? then WriteChange(p, "") else if f.Updating? then Load(p) else WriteNext(p);
    if f.Updating? { LoadHolds(s, p); }
    if f.Writing? { WriteNextHolds(s, p); }
    InvStep(s, e);
    var rest;
    rest, c := HoldersFinish(Apply(s, e), p);
    RunCons(s, e, rest);
    es := [e] + rest;
  }

  /** Nothing the request can do of its own makes it hold what it does not, or opens a session without it. */
  lemma EmptyHandedStep(s: State, e: Event, p: Pid)
    requires Inv(s) && Enabled(s, e) && OwnStep(e, p) && !Holds(s, p)
    ensures !Holds(Apply(s, e), p)
    ensures forall c :: Authenticates(Apply(s, e), c) ==> c in s.jar
  {
    if e.Load? { LoadHolds(s, p); }
    if e.WriteNext? && s.flights[p].target == s.flights[p].user { WriteNextHolds(s, p); }
  }

  lemma {:induction false} EmptyHandedRun(s: State, es: seq<Event>, p: Pid, jar: set<Cookie>, c: Cookie)
    requires Inv(s) && Run(s, es) && (forall e <- es :: OwnStep(e, p)) && !Holds(s, p)
    requires forall d <- s.jar :: d in jar || (p !in s.flights && !Authenticates(s, d))
    requires c !in jar
    ensures !Authenticates(After(s, es), c)
    decreases |es|
  {
    if es != [] {
      var e := es[0];
      assert e in es && OwnStep(e, p);
      assert forall f <- es[1..] :: f in es;
      InvStep(s, e);
      EmptyHandedStep(s, e, p);
      EmptyHandedRun(Apply(s, e), es[1..], p, jar, c);
    } else if c in s.jar {
      assert !Authenticates(s, c);
    }
  }

  /**
    A request left to itself opens a session exactly when it holds a current epoch on an open
    account, a proven password, or an administrator's reset of their own password.
  */
  lemma OpensExactlyWhenHolding(s: State, p: Pid)
    requires Inv(s)
    ensures CanStillOpen(s, p) <==> Holds(s, p)
  {
    if Holds(s, p) {
      var es, c := HoldersFinish(s, p);
    } else {
      forall es: seq<Event>, c: Cookie | Run(s, es) && (forall e <- es :: OwnStep(e, p)) && c !in s.jar
        ensures !Authenticates(After(s, es), c)
      {
        EmptyHandedRun(s, es, p, s.jar, c);
      }
    }
  }

  /**
    A revocation is meant to end what was authenticated before it. It ends every cookie and
    every sign-in under way; of the requests in flight for the account, exactly those that
    Outlive it still open a session: password changes that have shown the old password, and
    administrators' resets of their own password, which show none.
  */
  lemma RevocationIsOutlivedExactlyByOwnChanges(s: State, e: Event, p: Pid)
    requires Inv(s) && Enabled(s, e) && p in s.flights && Revokes(s, e, s.flights[p].user)
    requires p in Apply(s, e).flights && Apply(s, e).flights[p] == s.flights[p]
    ensures CanStillOpen(Apply(s, e), p) <==> Outlives(s.flights[p], Apply(s, e).users[s.flights[p].user])
  {
    InvStep(s, e);
    OpensExactlyWhenHolding(Apply(s, e), p);
    OneStep(s, e);
    EpochCounts(s, [e], s.flights[p].user);
  }

  /** Such a change undoes an administrator's reset: its own password stands afterwards. */
  lemma ProvenChangeBeatsAReset(s: State, p: Pid, q: Pid, hash: Hash, ttl: nat)
    requires Inv(s) && p in s.flights && s.flights[p].Proven? && !s.users[s.flights[p].user].Blocked()
    requires q in s.flights && s.flights[q].Writing? && s.flights[q].target == s.flights[p].user != s.flights[q].user
    requires |s.flights[q].todo| == 1 && s.flights[q].todo[0].SetHash?
    ensures var u := s.flights[p].user;
            var es := [WriteNext(q)] + ([WriteChange(p, hash)] + [Sign(p, ttl)]);
            && Run(s, es)
            && u in After(s, es).users && After(s, es).users[u].hash == hash
            && Authenticates(After(s, es), Cookie(u, s.users[u].epoch + 2, s.now + ttl))
  {
    var s1 := Apply(s, WriteNext(q));
    var s2 := Apply(s1, WriteChange(p, hash));
    OneStep(s2, Sign(p, ttl));
    RunCons(s1, WriteChange(p, hash), [Sign(p, ttl)]);
    RunCons(s, WriteNext(q), [WriteChange(p, hash)] + [Sign(p, ttl)]);
  }

  lemma Begins(s: State, p: Pid, c: Cookie, patch: Patch)
    requires p !in s.flights && Administers(s, c)
    ensures Enabled(s, BeginUpdate(p, c, c.user, patch))
    ensures Apply(s, BeginUpdate(p, c, c.user, patch)) == s.(flights := s.flights[p := Updating(c.user, c.user, patch)])
  {
  }

  /** An own reset in flight, let alone from here. */
  lemma FinishesReset(s: State, p: Pid, hash: Hash, ttl: nat)
    requires p in s.flights && s.flights[p].user in s.users && !s.users[s.flights[p].user].Blocked()
    requires s.flights[p] == Updating(s.flights[p].user, s.flights[p].user, Patch(Some(hash), None, None, None))
    ensures var u := s.flights[p].user;
            var es := [Load(p)] + ([WriteNext(p)] + [Sign(p, ttl)]);
            && Run(s, es)
            && u in After(s, es).users && After(s, es).users[u].hash == hash
            && Authenticates(After(s, es), Cookie(u, s.users[u].epoch + 1, s.now + ttl))
  {
    var u := s.flights[p].user;
    var s1 := Apply(s, Load(p));
    assert s1.flights[p].todo == [SetHash(hash)];
    var s2 := Apply(s1, WriteNext(p));
    OneStep(s2, Sign(p, ttl));
    RunCons(s1, WriteNext(p), [Sign(p, ttl)]);
    RunCons(s, Load(p), [WriteNext(p)] + [Sign(p, ttl)]);
  }

  /** A revocation leaves requests and cookies where they are. */
  lemma RevokesOnly(s: State, u: Id)
    requires u in s.users
    ensures Enabled(s, Revoke(u))
    ensures var t := Apply(s, Revoke(u));
            && t.flights == s.flights && t.now == s.now && u in t.users
            && t.users[u] == s.users[u].(epoch := s.users[u].epoch + 1)
  {
  }

  /** A reset begun with an administrator's cookie outlives a revocation, without the old password being shown. */
  lemma OwnResetOutlivesARevocation(s: State, p: Pid, c: Cookie, hash: Hash, ttl: nat)
    requires Inv(s) && p !in s.flights && Administers(s, c)
    ensures var es := [BeginUpdate(p, c, c.user, Patch(Some(hash), None, None, None))]
                      + ([Revoke(c.user)] + ([Load(p)] + ([WriteNext(p)] + [Sign(p, ttl)])));
            && Run(s, es)
            && c.user in After(s, es).users && After(s, es).users[c.user].hash == hash
            && Authenticates(After(s, es), Cookie(c.user, c.epoch + 2, s.now + ttl))
  {
    var patch := Patch(Some(hash), None, None, None);
    var s1 := Apply(s, BeginUpdate(p, c, c.user, patch));
    Begins(s, p, c, patch);
    RevokesOnly(s1, c.user);
    FinishesReset(Apply(s1, Revoke(c.user)), p, hash, ttl);
    RunCons(s1, Revoke(c.user), [Load(p)] + ([WriteNext(p)] + [Sign(p, ttl)]));
    RunCons(s, BeginUpdate(p, c, c.user, patch), [Revoke(c.user)] + ([Load(p)] + ([WriteNext(p)] + [Sign(p, ttl)])));
  }

  /**
    It outlives a suspension too, if the update also lifts one: begun before another administrator
    suspends its caller, it reopens the account, and leaves its caller signed in.
  */
  lemma OwnUpdateUndoesASuspension(s: State, p: Pid, q: Pid, c: Cookie, hash: Hash, ttl: nat)
    requires Inv(s) && p !in s.flights && Administers(s, c) && |UsableAdmins(s.users)| > 1
    requires q in s.flights && s.flights[q].Writing? && s.flights[q].target == c.user != s.flights[q].user
    requires |s.flights[q].todo| == 1 && s.flights[q].todo[0] == SetGated(Suspension, true)
    ensures var begin := BeginUpdate(p, c, c.user, Patch(Some(hash), None, Some(false), None));
            var es := [begin] + ([WriteNext(q)] + ([Load(p)] + ([WriteNext(p)] + ([WriteNext(p)] + [Sign(p, ttl)]))));
            && Run(s, es)
            && Revokes(Apply(s, begin), WriteNext(q), c.user)
            && Authenticates(After(s, es), Cookie(c.user, c.epoch + 2, s.now + ttl))
  {
    var patch := Patch(Some(hash), None, Some(false), None);
    var rest := [WriteNext(q)] + ([Load(p)] + ([WriteNext(p)] + ([WriteNext(p)] + [Sign(p, ttl)])));
    Begins(s, p, c, patch);
    RestoredAfter(s.(flights := s.flights[p := Updating(c.user, c.user, patch)]), p, q, c.user, hash, ttl);
    RunCons(s, BeginUpdate(p, c, c.user, patch), rest);
  }

  lemma RestoredAfter(s: State, p: Pid, q: Pid, u: Id, hash: Hash, ttl: nat)
    requires u in s.users && !s.users[u].Blocked() && |UsableAdmins(s.users)| > 1 && p != q
    requires p in s.flights && s.flights[p] == Updating(u, u, Patch(Some(hash), None, Some(false), None))
    requires q in s.flights && s.flights[q].Writing? && s.flights[q].target == u
    requires |s.flights[q].todo| == 1 && s.flights[q].todo[0] == SetGated(Suspension, true)
    ensures var es := [WriteNext(q)] + ([Load(p)] + ([WriteNext(p)] + ([WriteNext(p)] + [Sign(p, ttl)])));
            && Run(s, es) && Revokes(s, WriteNext(q), u)
            && Authenticates(After(s, es), Cookie(u, s.users[u].epoch + 2, s.now + ttl))
  {
    Suspends(s, q, u);
    FinishesRestore(Apply(s, WriteNext(q)), p, hash, ttl);
    RunCons(s, WriteNext(q), [Load(p)] + ([WriteNext(p)] + ([WriteNext(p)] + [Sign(p, ttl)])));
  }

  lemma Suspends(s: State, q: Pid, u: Id)
    requires u in s.users && !s.users[u].Blocked() && |UsableAdmins(s.users)| > 1
    requires q in s.flights && s.flights[q].Writing? && s.flights[q].target == u
    requires |s.flights[q].todo| == 1 && s.flights[q].todo[0] == SetGated(Suspension, true)
    ensures Enabled(s, WriteNext(q)) && Revokes(s, WriteNext(q), u)
    ensures var t := Apply(s, WriteNext(q));
            && t.now == s.now && u in t.users
            && t.users[u] == s.users[u].(disabled := true, epoch := s.users[u].epoch + 1)
            && forall p <- s.flights :: p != q ==> p in t.flights && t.flights[p] == s.flights[p]
  {
  }

  lemma FinishesRestore(s: State, p: Pid, hash: Hash, ttl: nat)
    requires p in s.flights && s.flights[p].user in s.users
    requires s.users[s.flights[p].user].disabled && !s.users[s.flights[p].user].pending
    requires s.flights[p] == Updating(s.flights[p].user, s.flights[p].user, Patch(Some(hash), None, Some(false), None))
    ensures var u := s.flights[p].user;
            var es := [Load(p)] + ([WriteNext(p)] + ([WriteNext(p)] + [Sign(p, ttl)]));
            && Run(s, es)
            && Authenticates(After(s, es), Cookie(u, s.users[u].epoch + 1, s.now + ttl))
  {
    var s1 := Apply(s, Load(p));
    assert s1.flights[p].todo == [SetGated(Suspension, false), SetHash(hash)];
    var s2 := Apply(s1, WriteNext(p));
    assert s2.flights[p].todo == [SetHash(hash)];
    var s3 := Apply(s2, WriteNext(p));
    OneStep(s3, Sign(p, ttl));
    RunCons(s2, WriteNext(p), [Sign(p, ttl)]);
    RunCons(s1, WriteNext(p), [WriteNext(p)] + [Sign(p, ttl)]);
    RunCons(s, Load(p), [WriteNext(p)] + ([WriteNext(p)] + [Sign(p, ttl)]));
  }
}
