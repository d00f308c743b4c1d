/**
  Accounts and the writes an administrator makes to them. The store's guard keeps an
  instance administrable; the update handler makes up to four writes in a fixed order, and
  this module says exactly when a refusal leaves some of them behind.
*/
module Accounts {
  import opened Options

  type Id = nat
  type Hash = string

  datatype User = User(admin: bool, disabled: bool, pending: bool, hash: Hash, epoch: nat) {
    predicate Blocked() { disabled || pending }
    predicate Usable() { admin && !Blocked() }
  }

  type Db = map<Id, User>

  /** usableAdminCountQuery: administrators that authenticate on some path. */
  function UsableAdmins(db: Db): set<Id> {
    set u | u in db && db[u].Usable()
  }

  /** The two timestamp columns that stop an account authenticating. */
  datatype Gate = Suspension | Admission

  function Closed(u: User, gate: Gate): bool {
    if gate.Suspension? then u.disabled else u.pending
  }

  function WithGate(u: User, gate: Gate, closed: bool): User {
    if gate.Suspension? then u.(disabled := closed) else u.(pending := closed)
  }

  /** guardLastSiteAdmin, consulted before a change that takes administration away. */
  predicate GuardRefuses(db: Db, isAdmin: bool) {
    isAdmin && |UsableAdmins(db)| <= 1
  }

  datatype Step = Step(db: Db, refused: bool)

  /** SetUserAdmin */
  function SetAdmin(db: Db, u: Id, admin: bool): Step
    requires u in db
  {
    if !admin && GuardRefuses(db, db[u].admin) then Step(db, true)
    else Step(db[u := db[u].(admin := admin)], false)
  }

  /** setUserGate: a no-op if already so; closing it revokes the sessions in the same statement. */
  function SetGate(db: Db, u: Id, gate: Gate, closed: bool): Step
    requires u in db
  {
    if Closed(db[u], gate) == closed then Step(db, false)
    else if closed && GuardRefuses(db, db[u].admin) then Step(db, true)
    else
      var changed := WithGate(db[u], gate, closed);
      Step(db[u := if closed then changed.(epoch := changed.epoch + 1) else changed], false)
  }

  /** UpdateUserPassword: the hash and the revocation in one statement. */
  function SetPassword(db: Db, u: Id, hash: Hash): Db
    requires u in db
  {
    db[u := db[u].(hash := hash, epoch := db[u].epoch + 1)]
  }

  /** One write of the store. */
  datatype Write = SetFlag(admin: bool) | SetGated(gate: Gate, closed: bool) | SetHash(hash: Hash)

  function Written(db: Db, u: Id, w: Write): Step
    requires u in db
  {
    match w
    case SetFlag(admin) => SetAdmin(db, u, admin)
    case SetGated(gate, closed) => SetGate(db, u, gate, closed)
    case SetHash(hash) => Step(SetPassword(db, u, hash), false)
  }

  /** The write ends u's sessions. */
  predicate Ends(db: Db, u: Id, w: Write)
    requires u in db
  {
    match w
    case SetFlag(_) => false
    case SetGated(gate, closed) => closed && !Closed(db[u], gate) && !GuardRefuses(db, db[u].admin)
    case SetHash(_) => true
  }

  /** The store never refuses its way into, or lets a caller write its way into, an instance nobody administers. */
  lemma StoreKeepsAnAdmin(db: Db, u: Id, admin: bool, gate: Gate, closed: bool, hash: Hash)
    requires u in db && UsableAdmins(db) != {}
    ensures UsableAdmins(SetAdmin(db, u, admin).db) != {}
    ensures UsableAdmins(SetGate(db, u, gate, closed).db) != {}
    ensures UsableAdmins(SetPassword(db, u, hash)) == UsableAdmins(db)
  {
    var a :| a in UsableAdmins(db);
    OneOthers(UsableAdmins(db), u);
    forall db': Db | db'.Keys == db.Keys && forall v <- db :: v != u ==> db'[v] == db[v]
      ensures UsableAdmins(db) - {u} <= UsableAdmins(db')
    {
    }
    assert UsableAdmins(db) - {u} <= UsableAdmins(SetAdmin(db, u, admin).db);
    assert UsableAdmins(db) - {u} <= UsableAdmins(SetGate(db, u, gate, closed).db);
  }

  lemma OneOthers<T>(s: set<T>, x: T)
    ensures |s| > 1 ==> s - {x} != {}
    ensures x !in s ==> s - {x} == s
  {
    if s - {x} == {} {
      assert s == {x} || s == {};
    }
  }

  // ------------------------------------------------------ the update handler

  /** The value of the approval field: one of the two it knows, or any other text. */
  datatype Approval = Approved | Pending | Unknown

  /** PATCH /api/v1/admin/users/{username}; absent fields are left alone. */
  datatype Patch = Patch(password: Option<Hash>, isAdmin: Option<bool>, disabled: Option<bool>,
                         approval: Option<Approval>)

  datatype Answer =
    | NothingToSet | InvalidPassword | UnknownApproval | NoSuchUser | SelfDemote | SelfDisable | SelfPending
    | NoHashingCapacity | LastAdmin | Updated(reissued: Option<nat>)

  /** The refusals decided before any write. */
  function Refusal(db: Db, actor: Id, target: Id, p: Patch, passwordOk: bool, hashed: bool): Option<Answer> {
    if p == Patch(None, None, None, None) then Some(NothingToSet)
    else if p.password.Some? && !passwordOk then Some(InvalidPassword)
    else if p.approval == Some(Unknown) then Some(UnknownApproval)
    else if target !in db then Some(NoSuchUser)
    else if p.isAdmin == Some(false) && target == actor then Some(SelfDemote)
    else if p.disabled == Some(true) && target == actor then Some(SelfDisable)
    else if p.approval == Some(Pending) && target == actor then Some(SelfPending)
    else if p.password.Some? && !hashed then Some(NoHashingCapacity)
    else None
  }

  /** The request locks its own caller out. */
  predicate LocksSelfOut(actor: Id, target: Id, p: Patch) {
    target == actor && (p.isAdmin == Some(false) || p.disabled == Some(true) || p.approval == Some(Pending))
  }

  /**
    What is refused before any write, and what comes first: a request that is malformed is so
    whether or not its account exists, nobody locks themselves out, and a password is hashed last.
  */
  lemma RefusedBeforehandExactlyWhen(db: Db, actor: Id, target: Id, p: Patch, passwordOk: bool, hashed: bool)
    ensures var r := Refusal(db, actor, target, p, passwordOk, hashed);
            var asks := p.password.Some? || p.isAdmin.Some? || p.disabled.Some? || p.approval.Some?;
            var sound := asks && (p.password.Some? ==> passwordOk) && p.approval != Some(Unknown);
            && (r == Some(NothingToSet) <==> !asks)
            && (r == Some(InvalidPassword) <==> p.password.Some? && !passwordOk)
            && (r == Some(UnknownApproval) <==> (p.password.Some? ==> passwordOk) && p.approval == Some(Unknown))
            && (r == Some(NoSuchUser) <==> sound && target !in db)
            && (r in [Some(SelfDemote), Some(SelfDisable), Some(SelfPending)] <==>
                  sound && target in db && LocksSelfOut(actor, target, p))
            && (r == Some(NoHashingCapacity) <==>
                  sound && target in db && !LocksSelfOut(actor, target, p) && p.password.Some? && !hashed)
            && (r == None <==>
                  sound && target in db && !LocksSelfOut(actor, target, p) && (p.password.Some? ==> hashed))
  {
  }

  /** The three writes that may refuse on their own terms, in the handler's order. */
  function GuardedWrites(db: Db, t: Id, p: Patch): Step
    requires t in db
  {
    var s1 := if p.isAdmin.Some? && p.isAdmin.value != db[t].admin
              then SetAdmin(db, t, p.isAdmin.value) else Step(db, false);
    if s1.refused then s1 else
      var s2 := if p.disabled.Some? && p.disabled.value != db[t].disabled
                then SetGate(s1.db, t, Suspension, p.disabled.value) else s1;
      if s2.refused || p.approval.None? then s2 else SetGate(s2.db, t, Admission, !p.approval.value.Approved?)
  }

  function FlagTodo(loaded: User, p: Patch): seq<Write> {
    if p.isAdmin.Some? && p.isAdmin.value != loaded.admin then [SetFlag(p.isAdmin.value)] else []
  }

  function SuspensionTodo(loaded: User, p: Patch): seq<Write> {
    if p.disabled.Some? && p.disabled.value != loaded.disabled then [SetGated(Suspension, p.disabled.value)] else []
  }

  function AdmissionTodo(p: Patch): seq<Write> {
    if p.approval.Some? then [SetGated(Admission, !p.approval.value.Approved?)] else []
  }

  function PasswordTodo(p: Patch): seq<Write> {
    if p.password.Some? then [SetHash(p.password.value)] else []
  }

  /** The writes of an update, decided by the account as it was loaded. */
  function Todo(loaded: User, p: Patch): seq<Write> {
    FlagTodo(loaded, p) + (SuspensionTodo(loaded, p) + (AdmissionTodo(p) + PasswordTodo(p)))
  }

  /** Those writes with nobody between them; a refusal ends them. */
  function Performed(db: Db, u: Id, todo: seq<Write>): Step
    requires u in db
    decreases |todo|
  {
    if todo == [] then Step(db, false)
    else
      var s := Written(db, u, todo[0]);
      if s.refused then s else Performed(s.db, u, todo[1..])
  }

  lemma {:induction false} PerformedAppend(db: Db, u: Id, a: seq<Write>, b: seq<Write>)
    requires u in db
    ensures u in Performed(db, u, a).db
    ensures Performed(db, u, a + b) ==
            var s := Performed(db, u, a); if s.refused then s else Performed(s.db, u, b)
    decreases |a|
  {
    if a == [] {
      assert a + b == b;
    } else {
      assert (a + b)[1..] == a[1..] + b;
      PerformedAppend(Written(db, u, a[0]).db, u, a[1..], b);
    }
  }

  lemma PerformedOne(db: Db, u: Id, w: Write)
    requires u in db
    ensures Performed(db, u, [w]) == Written(db, u, w)
  {
    assert [w][1..] == [];
  }

  /** A last refusal is what the whole comes to. */
  function Then(s: Step, u: Id, todo: seq<Write>): Step {
    if s.refused || u !in s.db then s else Performed(s.db, u, todo)
  }

  /** All of them but the password. */
  function ThenGates(db: Db, t: Id, loaded: User, p: Patch): Step
    requires t in db
  {
    Then(Then(Performed(db, t, FlagTodo(loaded, p)), t, SuspensionTodo(loaded, p)), t, AdmissionTodo(p))
  }

  lemma PerformedTodo(db: Db, t: Id, loaded: User, p: Patch)
    requires t in db
    ensures Performed(db, t, Todo(loaded, p)) == Then(ThenGates(db, t, loaded, p), t, PasswordTodo(p))
  {
    var b, c, d := SuspensionTodo(loaded, p), AdmissionTodo(p), PasswordTodo(p);
    PerformedAppend(db, t, FlagTodo(loaded, p), b + (c + d));
    var s := Performed(db, t, FlagTodo(loaded, p));
    PerformedAppend(s.db, t, b, c + d);
    PerformedAppend(Performed(s.db, t, b).db, t, c, d);
  }

  lemma GuardedThen(db: Db, t: Id, p: Patch)
    requires t in db
    ensures GuardedWrites(db, t, p) == ThenGates(db, t, db[t], p) && t in GuardedWrites(db, t, p).db
  {
    forall db: Db, w: Write | t in db ensures Performed(db, t, [w]) == Written(db, t, w) {
      PerformedOne(db, t, w);
    }
  }

  lemma PasswordThen(s: Step, t: Id, p: Patch)
    requires t in s.db
    ensures Then(s, t, PasswordTodo(p)) ==
            if s.refused || p.password.None? then s else Step(SetPassword(s.db, t, p.password.value), false)
  {
    if p.password.Some? { PerformedOne(s.db, t, SetHash(p.password.value)); }
  }

  /** An update nobody disturbs makes the handler's writes. */
  lemma PerformedIsTheUpdate(db: Db, t: Id, p: Patch)
    requires t in db
    ensures var w := GuardedWrites(db, t, p);
            && t in w.db
            && Performed(db, t, Todo(db[t], p)) ==
               if w.refused || p.password.None? then w else Step(SetPassword(w.db, t, p.password.value), false)
  {
    PerformedTodo(db, t, db[t], p);
    GuardedThen(db, t, p);
    PasswordThen(GuardedWrites(db, t, p), t, p);
  }

  class Store {
    var users: Db

    constructor (users: Db)
      ensures this.users == users
    {
      this.users := users;
    }

    method SetUserAdmin(u: Id, admin: bool) returns (refused: bool)
      requires u in users
      modifies this
      ensures Step(users, refused) == SetAdmin(old(users), u, admin)
    {
      if !admin && GuardRefuses(users, users[u].admin) { return true; }
      users := users[u := users[u].(admin := admin)];
      return false;
    }

    method SetUserGate(u: Id, gate: Gate, closed: bool) returns (refused: bool)
      requires u in users
      modifies this
      ensures Step(users, refused) == SetGate(old(users), u, gate, closed)
    {
      if Closed(users[u], gate) == closed { return false; }
      if closed {
        if GuardRefuses(users, users[u].admin) { return true; }
        users := users[u := WithGate(users[u], gate, true).(epoch := users[u].epoch + 1)];
      } else {
        users := users[u := WithGate(users[u], gate, false)];
      }
      return false;
    }

    method UpdateUserPassword(u: Id, hash: Hash) returns (epoch: nat)
      requires u in users
      modifies this
      ensures users == SetPassword(old(users), u, hash) && epoch == users[u].epoch == old(users)[u].epoch + 1
    {
      epoch := users[u].epoch + 1;
      users := users[u := users[u].(hash := hash, epoch := epoch)];
    }

    /**
      handleAdminUpdateUser. Resetting one's own password re-issues the caller's cookie at the
      epoch the write returned; every other write leaves no cookie behind.
    */
    method AdminUpdate(actor: Id, target: Id, p: Patch, passwordOk: bool, hashed: bool, byCookie: bool)
      returns (answer: Answer)
      modifies this
      ensures var was := old(users);
              var early := Refusal(was, actor, target, p, passwordOk, hashed);
              if early.Some? then answer == early.value && users == was
              else
                var w := GuardedWrites(was, target, p);
                if w.refused then answer == LastAdmin && users == w.db
                else if p.password.None? then answer == Updated(None) && users == w.db
                else users == SetPassword(w.db, target, p.password.value)
                     && answer == Updated(if target == actor && byCookie then Some(users[target].epoch) else None)
    {
      var early := Refusal(users, actor, target, p, passwordOk, hashed);
      if early.Some? { return early.value; }
      var loaded := users[target];
      var refused := false;
      if p.isAdmin.Some? && p.isAdmin.value != loaded.admin {
        refused := SetUserAdmin(target, p.isAdmin.value);
        if refused { return LastAdmin; }
      }
      if p.disabled.Some? && p.disabled.value != loaded.disabled {
        refused := SetUserGate(target, Suspension, p.disabled.value);
        if refused { return LastAdmin; }
      }
      if p.approval.Some? {
        refused := SetUserGate(target, Admission, !p.approval.value.Approved?);
        if refused { return LastAdmin; }
      }
      if p.password.None? { return Updated(None); }
      var epoch := UpdateUserPassword(target, p.password.value);
      return Updated(if target == actor && byCookie then Some(epoch) else None);
    }
  }

  // ------------------------------------------- refusals that leave writes behind

  lemma UsableCount(db: Db, t: Id, u: User)
    requires t in db
    ensures |UsableAdmins(db[t := u])| ==
            |UsableAdmins(db)| - (if db[t].Usable() then 1 else 0) + if u.Usable() then 1 else 0
  {
    var before, others := UsableAdmins(db), UsableAdmins(db) - {t};
    assert before == if db[t].Usable() then others + {t} else others;
    assert UsableAdmins(db[t := u]) == if u.Usable() then others + {t} else others;
  }

  /** The requests a LastAdmin answer leaves half done; n is the number of usable administrators before. */
  predicate HalfDone(u: User, p: Patch, n: nat) {
    var promote := p.isAdmin == Some(true) && !u.admin;
    var suspend := p.disabled == Some(true) && !u.disabled;
    var sendBack := p.approval.Some? && !p.approval.value.Approved? && !u.pending;
    || (n == 1 && promote && suspend && (u.pending || sendBack))
    || (n == 1 && promote && sendBack && u.disabled && p.disabled != Some(false))
    || (n == 2 && u.admin && p.isAdmin != Some(false) && suspend && sendBack)
  }

  /**
    The handler's comment says a refused request cannot have granted anything on its way
    out. It holds except for exactly the HalfDone requests: those answer LastAdmin with an
    earlier write committed, and every other LastAdmin answer leaves the database as it was.
  */
  lemma RefusedUpdateIsHalfDoneExactlyWhen(db: Db, t: Id, p: Patch)
    requires t in db && UsableAdmins(db) != {}
    ensures var w := GuardedWrites(db, t, p);
            w.refused && w.db != db <==> HalfDone(db[t], p, |UsableAdmins(db)|)
  {
    var u, n := db[t], |UsableAdmins(db)|;
    assert n >= 1;
    var u1 := if p.isAdmin.Some? then u.(admin := p.isAdmin.value) else u;
    UsableCount(db, t, u);
    UsableCount(db, t, u1);
    assert db[t := u] == db;
    if !GuardedWrites(db, t, p.(disabled := None, approval := None)).refused {
      AfterAdminWrite(db, t, u1, p);
    }
  }

  /** The two gate writes of an update, after the flag write has left the target as u1. */
  lemma AfterAdminWrite(db: Db, t: Id, u1: User, p: Patch)
    requires t in db && UsableAdmins(db) != {}
    requires u1 == if p.isAdmin.Some? then db[t].(admin := p.isAdmin.value) else db[t]
    requires db[t].admin && !u1.admin ==> |UsableAdmins(db)| > 1
    ensures var w := GuardedWrites(db, t, p);
            w.refused && w.db != db <==> HalfDone(db[t], p, |UsableAdmins(db)|)
  {
    var u := db[t];
    var u2 := if p.disabled == Some(true) && !u.disabled then u1.(disabled := true, epoch := u1.epoch + 1)
              else if p.disabled == Some(false) then u1.(disabled := false) else u1;
    UsableCount(db, t, u1);
    UsableCount(db, t, u2);
    var db1, db2 := db[t := u1], db[t := u2];
    assert db1[t := u2] == db2 && db[t := u] == db;
    assert db1 == db <==> u1 == u by { assert db1[t] == u1; }
    assert db2 == db <==> u2 == u by { assert db2[t] == u2; }
  }

  /** The plainest case: promoting a suspended account and sending it back grants the flag and answers a refusal. */
  lemma RefusalGrantsAdmin(a: User, u: User)
    requires a.Usable() && !u.admin && u.disabled && !u.pending
    ensures var w := GuardedWrites(map[0 := a, 1 := u], 1, Patch(None, Some(true), None, Some(Pending)));
            w.refused && w.db[1].admin
  {
    var db := map[0 := a, 1 := u];
    assert UsableAdmins(db[1 := u.(admin := true)]) == {0};
  }

  /** The guard refuses more than it must exactly for an administrator who is not usable, beside the last who is. */
  lemma GuardOverreachesExactlyWhen(db: Db, u: Id)
    requires u in db && UsableAdmins(db) != {}
    ensures SetAdmin(db, u, false).refused && UsableAdmins(db[u := db[u].(admin := false)]) != {}
            <==> db[u].admin && db[u].Blocked() && |UsableAdmins(db)| == 1
  {
    UsableCount(db, u, db[u].(admin := false));
    assert |UsableAdmins(db)| >= 1;
    var after := UsableAdmins(db[u := db[u].(admin := false)]);
    assert after == {} <==> |after| == 0;
  }
}
