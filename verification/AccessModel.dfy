/** Dashboard users and their sessions as one state, with every login and user-management request as one
    step.  `saved` says whether writing users.json works: memory changes either way. */
module AccessModel {
  import opened Text
  import Lockout

  datatype Role = Admin | Ordinary | Unknown(name: string)

  datatype User = User(id: string, username: string, passwordHash: string, role: Role, account: Lockout.Account)

  datatype Session = Session(token: string, userId: string, username: string, role: Role, expiresAt: int)

  type Users = map<string, User>
  type Sessions = map<string, Session>

  datatype World = World(users: Users, sessions: Sessions)

  const SESSION_TTL := 28_800_000_000_000
  const MIN_PASSWORD := 12

  datatype Request =
    | Login(username: string, password: string, found: Option<string>, token: string, checked: int, stamped: int)
    | Logout(cookie: Option<string>)
    | CreateUser(cookie: Option<string>, username: string, password: string, role: Role, newId: string, hash: string)
    | Unlock(cookie: Option<string>, id: string)
    | ChangePassword(cookie: Option<string>, id: string, password: string, hash: string)
    | ChangeRole(cookie: Option<string>, id: string, role: Role)
    | DeleteUser(cookie: Option<string>, id: string)

  /** The clock reading of a request, the fate of its save, and the password check. */
  datatype Env = Env(now: int, saved: bool, matches: (string, string) -> bool)

  // ---- Sessions ----

  /** `SessionStore.Get`: an expired session is dropped. */
  function Get(sessions: Sessions, token: string, now: int): (Sessions, Option<Session>) {
    if token !in sessions then (sessions, None)
    else if now > sessions[token].expiresAt then (sessions - {token}, None)
    else (sessions, Some(sessions[token]))
  }

  /** `requireAuth`. */
  function Authenticated(w: World, cookie: Option<string>, now: int): (World, Option<Session>) {
    match cookie
    case None => (w, None)
    case Some(token) => var g := Get(w.sessions, token, now); (w.(sessions := g.0), g.1)
  }

  /** `requireAdmin`. */
  function Authorized(w: World, cookie: Option<string>, now: int): (World, Option<Session>) {
    var a := Authenticated(w, cookie, now);
    (a.0, if a.1.Some? && a.1.value.role == Admin then a.1 else None)
  }

  function WithoutUser(sessions: Sessions, userId: string): Sessions {
    map t | t in sessions && sessions[t].userId != userId :: sessions[t]
  }

  function AdminIds(users: Users): set<string> {
    set id | id in users && users[id].role == Admin
  }

  predicate HasName(users: Users, username: string) {
    exists id :: id in users && users[id].username == username
  }

  predicate ValidRole(role: Role) {
    role == Admin || role == Ordinary
  }

  // ---- Requests ----

  function AfterLogin(w: World, r: Request, env: Env): World
    requires r.Login?
  {
    if r.username == "" || r.password == "" || r.found.None? || r.found.value !in w.users then w
    else
      var u := w.users[r.found.value];
      var a := Lockout.Attempt(u.account, env.matches(u.passwordHash, r.password), r.checked, r.stamped);
      var users := w.users[u.id := u.(account := a.account)];
      if a.verdict == Lockout.Granted then
        World(users, w.sessions[r.token := Session(r.token, u.id, u.username, u.role, env.now + SESSION_TTL)])
      else World(users, w.sessions)
  }

  /** The login succeeds. */
  predicate Accepted(w: World, r: Request, env: Env)
    requires r.Login?
  {
    && r.username != "" && r.password != "" && r.found.Some? && r.found.value in w.users
    && var u := w.users[r.found.value];
       Lockout.Attempt(u.account, env.matches(u.passwordHash, r.password), r.checked, r.stamped).verdict == Lockout.Granted
  }

  function AfterCreate(w: World, r: Request): World
    requires r.CreateUser?
  {
    if r.username == "" || |r.password| < MIN_PASSWORD || !ValidRole(r.role) || HasName(w.users, r.username) then w
    else w.(users := w.users[r.newId := User(r.newId, r.username, r.hash, r.role, Lockout.Account(0, 0))])
  }

  function AfterUnlock(w: World, id: string): World {
    if id !in w.users then w else w.(users := w.users[id := w.users[id].(account := Lockout.Account(0, 0))])
  }

  function AfterPassword(w: World, id: string, password: string, hash: string, saved: bool): World {
    if |password| < MIN_PASSWORD || id !in w.users then w
    else
      World(w.users[id := w.users[id].(passwordHash := hash)],
            if saved then WithoutUser(w.sessions, id) else w.sessions)
  }

  function AfterRole(w: World, actor: Session, id: string, role: Role, saved: bool): World {
    if (actor.userId == id && role != Admin) || !ValidRole(role) || id !in w.users then w
    else
      World(w.users[id := w.users[id].(role := role)],
            if saved then WithoutUser(w.sessions, id) else w.sessions)
  }

  function AfterDelete(w: World, actor: Session, id: string, saved: bool): World {
    if actor.userId == id then w
    else if id in w.users && w.users[id].role == Admin && |AdminIds(w.users)| <= 1 then w
    else if id !in w.users then w
    else World(w.users - {id}, if saved then WithoutUser(w.sessions, id) else w.sessions)
  }

  function Next(w: World, r: Request, env: Env): World {
    match r
    case Login(_, _, _, _, _, _) => AfterLogin(w, r, env)
    case Logout(cookie) =>
      var a := Authenticated(w, cookie, env.now);
      if a.1.None? then a.0 else a.0.(sessions := a.0.sessions - {a.1.value.token})
    case CreateUser(cookie, _, _, _, _, _) =>
      var a := Authorized(w, cookie, env.now);
      if a.1.None? then a.0 else AfterCreate(a.0, r)
    case Unlock(cookie, id) =>
      var a := Authorized(w, cookie, env.now);
      if a.1.None? || id == "" then a.0 else AfterUnlock(a.0, id)
    case ChangePassword(cookie, id, password, hash) =>
      var a := Authorized(w, cookie, env.now);
      if a.1.None? || id == "" then a.0 else AfterPassword(a.0, id, password, hash, env.saved)
    case ChangeRole(cookie, id, role) =>
      var a := Authorized(w, cookie, env.now);
      if a.1.None? || id == "" then a.0 else AfterRole(a.0, a.1.value, id, role, env.saved)
    case DeleteUser(cookie, id) =>
      var a := Authorized(w, cookie, env.now);
      if a.1.None? || id == "" then a.0 else AfterDelete(a.0, a.1.value, id, env.saved)
  }

  // ---- The invariant ----

  ghost predicate CurrentSession(users: Users, token: string, s: Session) {
    && s.token == token && s.userId in users
    && users[s.userId].role == s.role && users[s.userId].username == s.username
  }

  /** Users are kept under their IDs. */
  ghost predicate IdsMatch(users: Users) {
    forall id :: id in users ==> users[id].id == id
  }

  /** Every session names an existing user with that user's present role and name. */
  ghost predicate Inv(w: World) {
    && IdsMatch(w.users)
    && (forall t :: t in w.sessions ==> CurrentSession(w.users, t, w.sessions[t]))
  }

  ghost predicate HasAdmin(w: World) {
    exists id :: id in w.users && w.users[id].role == Admin
  }

  /** Generated IDs are new, and a login's lookup finds a user of that name. */
  ghost predicate Fresh(w: World, r: Request) {
    && (r.CreateUser? ==> r.newId !in w.users)
    && (r.Login? && r.found.Some? ==> r.found.value in w.users && w.users[r.found.value].username == r.username)
  }

  lemma AuthenticatedKeeps(w: World, cookie: Option<string>, now: int)
    requires Inv(w)
    ensures Inv(Authenticated(w, cookie, now).0) && Authenticated(w, cookie, now).0.users == w.users
    ensures Authenticated(w, cookie, now).1.Some? ==>
              CurrentSession(w.users, Authenticated(w, cookie, now).1.value.token, Authenticated(w, cookie, now).1.value)
  {
  }

  /** Whoever is admitted as an administrator is one at that moment. */
  lemma ActorIsAdmin(w: World, cookie: Option<string>, now: int)
    requires Inv(w) && Authorized(w, cookie, now).1.Some?
    ensures var actor := Authorized(w, cookie, now).1.value;
            actor.userId in w.users && w.users[actor.userId].role == Admin
  {
    AuthenticatedKeeps(w, cookie, now);
  }

  /** A request whose failed save leaves somebody's session behind with a role the user no longer has. */
  ghost predicate LeavesStale(w: World, r: Request, env: Env) {
    && !env.saved
    && (r.ChangeRole? || r.DeleteUser?)
    && Authorized(w, r.cookie, env.now).1.Some? && r.id in w.users && r.id != ""
    && var actor := Authorized(w, r.cookie, env.now).1.value;
       && (exists t :: t in w.sessions && w.sessions[t].userId == r.id)
       && (r.ChangeRole? ==> ValidRole(r.role) && r.role != w.users[r.id].role && actor.userId != r.id)
       && (r.DeleteUser? ==> actor.userId != r.id)
  }

  lemma LoginKeeps(w: World, r: Request, env: Env)
    requires Inv(w) && Fresh(w, r) && r.Login?
    ensures Inv(Next(w, r, env))
  {
  }

  lemma CreateKeeps(w: World, r: Request, env: Env)
    requires Inv(w) && Fresh(w, r) && r.CreateUser?
    ensures Inv(Next(w, r, env))
  {
    AuthenticatedKeeps(w, r.cookie, env.now);
  }

  lemma RoleKeeps(w: World, actor: Session, id: string, role: Role, saved: bool)
    requires Inv(w) && actor.userId in w.users && w.users[actor.userId].role == Admin
    ensures Inv(AfterRole(w, actor, id, role, saved)) <==>
            saved || (actor.userId == id && role != Admin) || !ValidRole(role) || id !in w.users
            || role == w.users[id].role || (forall t :: t in w.sessions ==> w.sessions[t].userId != id)
  {
    var v := AfterRole(w, actor, id, role, saved);
    if v != w && !saved && role != w.users[id].role {
      forall t | t in w.sessions && w.sessions[t].userId == id ensures !Inv(v) {
        assert !CurrentSession(v.users, t, v.sessions[t]);
      }
    }
  }

  lemma OtherAdmin(w: World, actor: Session, id: string)
    requires actor.userId in w.users && w.users[actor.userId].role == Admin
    requires id in w.users && w.users[id].role == Admin && id != actor.userId
    ensures |AdminIds(w.users)| >= 2
  {
    assert {id, actor.userId} <= AdminIds(w.users);
    SubsetSize({id, actor.userId}, AdminIds(w.users));
  }

  lemma SubsetSize<T>(a: set<T>, b: set<T>)
    requires a <= b
    ensures |a| <= |b|
  {
    assert b == a + (b - a);
  }

  lemma DeleteKeeps(w: World, actor: Session, id: string, saved: bool)
    requires Inv(w) && actor.userId in w.users && w.users[actor.userId].role == Admin
    ensures Inv(AfterDelete(w, actor, id, saved)) <==>
            saved || actor.userId == id || id !in w.users || (forall t :: t in w.sessions ==> w.sessions[t].userId != id)
  {
    if id in w.users && w.users[id].role == Admin && actor.userId != id { OtherAdmin(w, actor, id); }
    var v := AfterDelete(w, actor, id, saved);
    if v != w && !saved {
      forall t | t in w.sessions && w.sessions[t].userId == id ensures !Inv(v) {
        assert !CurrentSession(v.users, t, v.sessions[t]);
      }
    }
  }

  lemma RequestedRoleKeeps(w: World, r: Request, env: Env)
    requires Inv(w) && r.ChangeRole?
    ensures Inv(Next(w, r, env)) <==> !LeavesStale(w, r, env)
  {
    AuthenticatedKeeps(w, r.cookie, env.now);
    var a := Authorized(w, r.cookie, env.now);
    if a.1.Some? {
      ActorIsAdmin(w, r.cookie, env.now);
      RoleKeeps(w, a.1.value, r.id, r.role, env.saved);
    }
  }

  lemma RequestedDeleteKeeps(w: World, r: Request, env: Env)
    requires Inv(w) && r.DeleteUser?
    ensures Inv(Next(w, r, env)) <==> !LeavesStale(w, r, env)
  {
    AuthenticatedKeeps(w, r.cookie, env.now);
    var a := Authorized(w, r.cookie, env.now);
    if a.1.Some? {
      ActorIsAdmin(w, r.cookie, env.now);
      DeleteKeeps(w, a.1.value, r.id, env.saved);
    }
  }

  lemma SimpleKeeps(w: World, r: Request, env: Env)
    requires Inv(w) && (r.Logout? || r.Unlock? || r.ChangePassword?)
    ensures Inv(Next(w, r, env))
  {
    AuthenticatedKeeps(w, r.cookie, env.now);
  }

  /** The exact condition: a step keeps all sessions current if and only if it is not a role change or a
      deletion whose save failed while its target still has a session. */
  lemma KeepsCurrentIff(w: World, r: Request, env: Env)
    requires Inv(w) && Fresh(w, r)
    ensures Inv(Next(w, r, env)) <==> !LeavesStale(w, r, env)
  {
    hide Inv, Next, Fresh;
    match r
    case Login(_, _, _, _, _, _) => LoginKeeps(w, r, env);
    case CreateUser(_, _, _, _, _, _) => CreateKeeps(w, r, env);
    case ChangeRole(_, _, _) => RequestedRoleKeeps(w, r, env);
    case DeleteUser(_, _) => RequestedDeleteKeeps(w, r, env);
    case _ => SimpleKeeps(w, r, env);
  }

  // ---- The last administrator ----

  /** A role change that takes the role from the only administrator, asked for through a session that says
      administrator but is not that user's. */
  ghost predicate DemotesLastAdmin(w: World, r: Request, env: Env) {
    && r.ChangeRole? && r.role == Ordinary && r.id != "" && AdminIds(w.users) == {r.id}
    && Authorized(w, r.cookie, env.now).1.Some? && Authorized(w, r.cookie, env.now).1.value.userId != r.id
  }

  lemma IdsKept(w: World, r: Request, env: Env)
    requires IdsMatch(w.users) && Fresh(w, r)
    ensures IdsMatch(Next(w, r, env).users)
  {
  }

  /** Requests other than role changes and deletions leave every administrator one. */
  lemma AdminsStay(w: World, r: Request, env: Env)
    requires IdsMatch(w.users) && Fresh(w, r) && !r.ChangeRole? && !r.DeleteUser?
    ensures AdminIds(w.users) <= AdminIds(Next(w, r, env).users)
  {
  }

  lemma AdminsAfterRole(w: World, actor: Session, id: string, role: Role, saved: bool)
    ensures AdminIds(AfterRole(w, actor, id, role, saved).users) ==
            if (actor.userId == id && role != Admin) || !ValidRole(role) || id !in w.users then AdminIds(w.users)
            else if role == Admin then AdminIds(w.users) + {id} else AdminIds(w.users) - {id}
  {
  }

  lemma AdminsAfterDelete(w: World, actor: Session, id: string, saved: bool)
    requires AdminIds(w.users) != {}
    ensures AdminIds(AfterDelete(w, actor, id, saved).users) != {}
  {
    var admins, v := AdminIds(w.users), AfterDelete(w, actor, id, saved);
    assert admins == {id} ==> |admins| == 1;
    if v.users != w.users {
      assert AdminIds(v.users) == admins - {id};
      var other :| other in admins && (id in admins ==> admins == {id} || other != id);
    }
  }

  /** The exact condition, with or without current sessions and whatever the saves do: a request takes the
      last administrator away if and only if it demotes the only one through a stale session.  The role
      change has no guard for the last administrator. */
  lemma LosesAdminIff(w: World, r: Request, env: Env)
    requires IdsMatch(w.users) && Fresh(w, r) && HasAdmin(w)
    ensures HasAdmin(Next(w, r, env)) <==> !DemotesLastAdmin(w, r, env)
  {
    UsersDecide(w);
    UsersDecide(Next(w, r, env));
    if r.ChangeRole? || r.DeleteUser? {
      var a := Authorized(w, r.cookie, env.now);
      if a.1.Some? && r.ChangeRole? {
        hide HasAdmin, AdminIds;
        AdminsAfterRole(a.0, a.1.value, r.id, r.role, env.saved);
      } else if a.1.Some? {
        hide HasAdmin, AdminIds;
        AdminsAfterDelete(a.0, a.1.value, r.id, env.saved);
      }
    } else {
      hide HasAdmin, AdminIds, Next;
      AdminsStay(w, r, env);
    }
  }

  lemma UsersDecide(w: World)
    ensures HasAdmin(w) <==> AdminIds(w.users) != {}
  {
    if id :| id in w.users && w.users[id].role == Admin { assert id in AdminIds(w.users); }
    if id :| id in AdminIds(w.users) { assert w.users[id].role == Admin; }
  }

  /** No request, saved or not, takes the last administrator away from a state with current sessions. */
  lemma KeepsAdmin(w: World, r: Request, env: Env)
    requires Inv(w) && Fresh(w, r) && HasAdmin(w)
    ensures HasAdmin(Next(w, r, env))
  {
    LosesAdminIff(w, r, env);
    CurrentActorIsAnother(w, r, env);
  }

  lemma CurrentActorIsAnother(w: World, r: Request, env: Env)
    requires Inv(w)
    ensures !DemotesLastAdmin(w, r, env)
  {
    if r.ChangeRole? && Authorized(w, r.cookie, env.now).1.Some? {
      ActorIsAdmin(w, r.cookie, env.now);
      assert Authorized(w, r.cookie, env.now).1.value.userId in AdminIds(w.users);
    }
  }

  /** The guard of `handleUserByID` against deleting the last administrator refuses. */
  predicate LastAdminRefusal(w: World, actor: Session, id: string) {
    actor.userId != id && id in w.users && w.users[id].role == Admin && |AdminIds(w.users)| <= 1
  }

  /** When the guard refuses: exactly if the target is the only administrator and not the actor, who then
      is none any more.  So it never refuses while sessions are current. */
  lemma LastAdminRefusalIff(w: World, cookie: Option<string>, id: string, now: int)
    requires Authorized(w, cookie, now).1.Some?
    ensures var actor := Authorized(w, cookie, now).1.value;
            && (LastAdminRefusal(w, actor, id) <==> AdminIds(w.users) == {id} && actor.userId != id)
            && (LastAdminRefusal(w, actor, id) ==> actor.userId !in AdminIds(w.users) && !Inv(w))
  {
    var actor, admins := Authorized(w, cookie, now).1.value, AdminIds(w.users);
    if LastAdminRefusal(w, actor, id) {
      assert {id} <= admins;
      OnlyOne(admins, id);
    }
    if admins == {id} { assert id in admins && |admins| == 1; }
    if Inv(w) {
      ActorIsAdmin(w, cookie, now);
      assert actor.userId in admins;
    }
  }

  lemma OnlyOne<T>(s: set<T>, x: T)
    requires x in s && |s| <= 1
    ensures s == {x}
  {
    forall y | y in s ensures y == x {
      if y != x { SubsetSize({x, y}, s); }
    }
  }

  // ---- Whole runs ----

  datatype Call = Call(request: Request, env: Env)

  function RunAll(w: World, calls: seq<Call>): World
    decreases |calls|
  {
    if calls == [] then w else RunAll(Next(w, calls[0].request, calls[0].env), calls[1..])
  }

  /** Every generated ID is new when it is used, and every lookup honest; saves may fail. */
  ghost predicate Honest(w: World, calls: seq<Call>)
    decreases |calls|
  {
    calls == [] || (Fresh(w, calls[0].request) && Honest(Next(w, calls[0].request, calls[0].env), calls[1..]))
  }

  /** No failed save leaves a stale session. */
  ghost predicate Sound(w: World, calls: seq<Call>)
    decreases |calls|
  {
    calls == [] ||
    (!LeavesStale(w, calls[0].request, calls[0].env) && Sound(Next(w, calls[0].request, calls[0].env), calls[1..]))
  }

  /** From any start with an administrator and current sessions, however many requests follow and whichever
      saves fail, as long as no failed one leaves a stale session: there is still an administrator and every
      session is current. */
  lemma {:induction false} AlwaysAnAdmin(w: World, calls: seq<Call>)
    requires Inv(w) && HasAdmin(w) && Honest(w, calls) && Sound(w, calls)
    ensures Inv(RunAll(w, calls)) && HasAdmin(RunAll(w, calls))
    decreases |calls|
  {
    hide Inv, HasAdmin, Fresh, Next, LeavesStale;
    if calls != [] {
      KeepsCurrentIff(w, calls[0].request, calls[0].env);
      KeepsAdmin(w, calls[0].request, calls[0].env);
      AlwaysAnAdmin(Next(w, calls[0].request, calls[0].env), calls[1..]);
    }
  }

  ghost predicate AdminThroughout(w: World, calls: seq<Call>)
    decreases |calls|
  {
    HasAdmin(w) && (calls == [] || AdminThroughout(Next(w, calls[0].request, calls[0].env), calls[1..]))
  }

  ghost predicate NeverDemotesLast(w: World, calls: seq<Call>)
    decreases |calls|
  {
    calls == [] ||
    (&& !DemotesLastAdmin(w, calls[0].request, calls[0].env)
     && NeverDemotesLast(Next(w, calls[0].request, calls[0].env), calls[1..]))
  }

  /** The exact condition for whole runs, whatever the saves do: there is an administrator at every moment if
      and only if no request of the run demotes the only one through a stale session. */
  lemma {:induction false} AdminThroughoutIff(w: World, calls: seq<Call>)
    requires IdsMatch(w.users) && HasAdmin(w) && Honest(w, calls)
    ensures AdminThroughout(w, calls) <==> NeverDemotesLast(w, calls)
    decreases |calls|
  {
    hide IdsMatch, HasAdmin, Fresh, Next, DemotesLastAdmin;
    if calls != [] {
      var next := Next(w, calls[0].request, calls[0].env);
      LosesAdminIff(w, calls[0].request, calls[0].env);
      IdsKept(w, calls[0].request, calls[0].env);
      if HasAdmin(next) { AdminThroughoutIff(next, calls[1..]); }
    }
  }

  // ---- What goes wrong when saves fail ----

  /** One failed save is enough: the deleted administrator's session is left and demotes the other one. */
  lemma FailedDeleteStep(matches: (string, string) -> bool) returns (w: World, deleteB: Request, demoteA: Request, failing: Env, working: Env)
    ensures Inv(w) && HasAdmin(w) && Fresh(w, deleteB) && Fresh(Next(w, deleteB, failing), demoteA)
    ensures working.saved && !failing.saved
    ensures !HasAdmin(Next(Next(w, deleteB, failing), demoteA, working))
  {
    var none := Lockout.Account(0, 0);
    var a, b := User("a", "ann", "", Admin, none), User("b", "bob", "", Admin, none);
    var sa, sb := Session("ta", "a", "ann", Admin, 10), Session("tb", "b", "bob", Admin, 10);
    w := World(map["a" := a, "b" := b], map["ta" := sa, "tb" := sb]);
    failing, working := Env(1, false, matches), Env(2, true, matches);
    deleteB, demoteA := DeleteUser(Some("ta"), "b"), ChangeRole(Some("tb"), "a", Ordinary);
    assert "a" in w.users && w.users["a"].role == Admin;
    assert Authorized(w, Some("ta"), 1) == (w, Some(sa));
    OtherAdmin(w, sa, "b");
    var v := Next(w, deleteB, failing);
    assert v == World(w.users - {"b"}, w.sessions);
    assert Authorized(v, Some("tb"), 2) == (v, Some(sb));
    assert Next(v, demoteA, working).users == (w.users - {"b"})["a" := a.(role := Ordinary)];
  }

  // ---- Further guarantees of single requests ----

  /** When a password, a role or an account goes, so does every session of that user. */
  lemma SessionsEnd(w: World, r: Request, env: Env)
    requires env.saved && (r.ChangePassword? || r.ChangeRole? || r.DeleteUser?)
    requires Next(w, r, env).users != w.users
    ensures forall t :: t in Next(w, r, env).sessions ==> Next(w, r, env).sessions[t].userId != r.id
    ensures forall t :: t in w.sessions && w.sessions[t].userId != r.id ==>
              t in Next(w, r, env).sessions && Next(w, r, env).sessions[t] == w.sessions[t]
  {
  }

  ghost predicate UniqueNames(users: Users) {
    forall a, b :: a in users && b in users && users[a].username == users[b].username ==> a == b
  }

  /** User names stay unique, whatever happens to the saves. */
  lemma NamesStayUnique(w: World, r: Request, env: Env)
    requires IdsMatch(w.users) && Fresh(w, r) && UniqueNames(w.users)
    ensures UniqueNames(Next(w, r, env).users)
  {
  }

  /** Only a login as this user, its unlocking and its deletion touch a user's lockout fields. */
  lemma AccountFrame(w: World, r: Request, env: Env, id: string)
    requires IdsMatch(w.users) && Fresh(w, r) && id in w.users
    requires !(r.Login? && r.found == Some(id)) && r != Unlock(if r.Logout? || r.Login? then None else r.cookie, id)
    ensures id in Next(w, r, env).users ==> Next(w, r, env).users[id].account == w.users[id].account
    ensures id !in Next(w, r, env).users ==> r.DeleteUser? && r.id == id
  {
  }

  // ---- The lockout bound over whole runs ----

  /** The logins that try a password for user `id`. */
  predicate TriesPassword(r: Request, id: string) {
    r.Login? && r.found == Some(id) && r.username != "" && r.password != ""
  }

  ghost function TriesOn(calls: seq<Call>, id: string): seq<Lockout.Try> {
    if calls == [] then []
    else (if TriesPassword(calls[0].request, id)
          then [Lockout.Try(calls[0].request.checked, calls[0].request.stamped)] else [])
         + TriesOn(calls[1..], id)
  }

  /** How often the run compares a password with the one of user `id`. */
  ghost function Compared(w: World, calls: seq<Call>, id: string): nat
    decreases |calls|
  {
    if calls == [] then 0
    else
      var r := calls[0].request;
      (if TriesPassword(r, id) && id in w.users && r.checked >= w.users[id].account.lockedUntil then 1 else 0)
      + Compared(Next(w, r, calls[0].env), calls[1..], id)
  }

  /** The user exists throughout, nobody unlocks it, and no login as it succeeds. */
  ghost predicate Besieged(w: World, calls: seq<Call>, id: string)
    decreases |calls|
  {
    id in w.users &&
    (calls == [] ||
     var r := calls[0].request;
     && !(r.Unlock? && r.id == id)
     && (TriesPassword(r, id) ==> !calls[0].env.matches(w.users[id].passwordHash, r.password))
     && Besieged(Next(w, r, calls[0].env), calls[1..], id))
  }

  lemma OneCall(w: World, r: Request, env: Env, id: string)
    requires IdsMatch(w.users) && Fresh(w, r) && id in w.users && id in Next(w, r, env).users
    requires !(r.Unlock? && r.id == id)
    requires TriesPassword(r, id) ==> !env.matches(w.users[id].passwordHash, r.password)
    ensures Next(w, r, env).users[id].account ==
            if TriesPassword(r, id) then Lockout.Attempt(w.users[id].account, false, r.checked, r.stamped).account
            else w.users[id].account
  {
    if !(r.Login? && r.found == Some(id)) { AccountFrame(w, r, env, id); }
  }

  lemma {:induction false} ComparedIs(w: World, calls: seq<Call>, id: string)
    requires IdsMatch(w.users) && Honest(w, calls) && Besieged(w, calls, id)
    ensures Compared(w, calls, id) == Lockout.Comparisons(w.users[id].account, TriesOn(calls, id))
    decreases |calls|
  {
    hide IdsMatch, Fresh, Next;
    if calls != [] {
      var r, env, tries := calls[0].request, calls[0].env, TriesOn(calls[1..], id);
      IdsKept(w, r, env);
      OneCall(w, r, env, id);
      ComparedIs(Next(w, r, env), calls[1..], id);
      if TriesPassword(r, id) {
        assert ([Lockout.Try(r.checked, r.stamped)] + tries)[1..] == tries;
      } else {
        assert [] + tries == tries;
      }
    }
  }

  /** The lockout bound for the whole dashboard: between the other requests of any run, however many
      passwords are tried for one existing user without a success or an unlock, at most 10 + floor(D / 30 min)
      of them are compared, D being the time from the first try to the last. */
  lemma BesiegedUser(w: World, calls: seq<Call>, id: string)
    requires IdsMatch(w.users) && Honest(w, calls) && Besieged(w, calls, id)
    requires Lockout.Ordered(TriesOn(calls, id)) && TriesOn(calls, id) != []
    ensures var tries := TriesOn(calls, id);
            Compared(w, calls, id) <= 10 + (tries[|tries| - 1].checked - tries[0].checked) / 1_800_000_000_000
  {
    ComparedIs(w, calls, id);
    Lockout.LockoutBound(w.users[id].account, TriesOn(calls, id));
  }
}
