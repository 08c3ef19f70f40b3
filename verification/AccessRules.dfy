/** What each request does, in terms of cookies, users and sessions alone; and where sessions come from. */
module AccessRules {
  import opened Text
  import Lockout
  import opened AccessModel

  /** The cookie names a session that has not expired. */
  predicate Live(w: World, cookie: Option<string>, now: int) {
    cookie.Some? && cookie.value in w.sessions && now <= w.sessions[cookie.value].expiresAt
  }

  predicate ByAdmin(w: World, cookie: Option<string>, now: int) {
    Live(w, cookie, now) && w.sessions[cookie.value].role == Admin
  }

  /** Looking a session up drops it if it has expired. */
  function Unexpired(sessions: Sessions, cookie: Option<string>, now: int): Sessions {
    if cookie.Some? && cookie.value in sessions && sessions[cookie.value].expiresAt < now then sessions - {cookie.value}
    else sessions
  }

  function Others(sessions: Sessions, userId: string): Sessions {
    map t | t in sessions && sessions[t].userId != userId :: sessions[t]
  }

  /** Logging out ends the session of the cookie, and no other. */
  lemma LogoutExactly(w: World, cookie: Option<string>, env: Env)
    requires Inv(w)
    ensures Next(w, Logout(cookie), env) == World(w.users, if cookie.Some? then w.sessions - {cookie.value} else w.sessions)
  {
    assert cookie.Some? && cookie.value in w.sessions ==> CurrentSession(w.users, cookie.value, w.sessions[cookie.value]);
  }

  /** Only an administrator creates users: with a name that is not taken, at least 12 characters of password and
      one of the two roles. */
  lemma CreateExactly(w: World, cookie: Option<string>, username: string, password: string, role: Role, newId: string,
                      hash: string, env: Env)
    ensures Next(w, CreateUser(cookie, username, password, role, newId, hash), env) ==
            World(if ByAdmin(w, cookie, env.now) && username != "" && |password| >= 12 && (role == Admin || role == Ordinary)
                     && forall id :: id in w.users ==> w.users[id].username != username
                  then w.users[newId := User(newId, username, hash, role, Lockout.Account(0, 0))] else w.users,
                  Unexpired(w.sessions, cookie, env.now))
  {
  }

  /** Only an administrator unlocks: both lockout fields of that user, and nothing else. */
  lemma UnlockExactly(w: World, cookie: Option<string>, id: string, env: Env)
    ensures Next(w, Unlock(cookie, id), env) ==
            World(if ByAdmin(w, cookie, env.now) && id != "" && id in w.users
                  then w.users[id := w.users[id].(account := Lockout.Account(0, 0))] else w.users,
                  Unexpired(w.sessions, cookie, env.now))
  {
  }

  /** Only an administrator sets passwords, of at least 12 characters; a saved change ends the user's sessions. */
  lemma PasswordExactly(w: World, cookie: Option<string>, id: string, password: string, hash: string, env: Env)
    ensures var done := ByAdmin(w, cookie, env.now) && id != "" && id in w.users && |password| >= 12;
            Next(w, ChangePassword(cookie, id, password, hash), env) ==
            World(if done then w.users[id := w.users[id].(passwordHash := hash)] else w.users,
                  if done && env.saved then Others(w.sessions, id) else Unexpired(w.sessions, cookie, env.now))
  {
  }

  /** Only an administrator changes roles, to one of the two, and not its own away from administrator. */
  lemma RoleExactly(w: World, cookie: Option<string>, id: string, role: Role, env: Env)
    ensures var done := && ByAdmin(w, cookie, env.now) && id != "" && id in w.users && (role == Admin || role == Ordinary)
                        && (w.sessions[cookie.value].userId == id ==> role == Admin);
            Next(w, ChangeRole(cookie, id, role), env) ==
            World(if done then w.users[id := w.users[id].(role := role)] else w.users,
                  if done && env.saved then Others(w.sessions, id) else Unexpired(w.sessions, cookie, env.now))
  {
  }

  /** Only an administrator deletes users, not itself and not the only administrator. */
  lemma DeleteExactly(w: World, cookie: Option<string>, id: string, env: Env)
    ensures var done := && ByAdmin(w, cookie, env.now) && id != "" && id in w.users && w.sessions[cookie.value].userId != id
                        && AdminIds(w.users) != {id};
            Next(w, DeleteUser(cookie, id), env) ==
            World(if done then w.users - {id} else w.users,
                  if done && env.saved then Others(w.sessions, id) else Unexpired(w.sessions, cookie, env.now))
  {
    var admins := AdminIds(w.users);
    if id in admins && |admins| <= 1 { OnlyOne(admins, id); }
    assert admins == {id} ==> |admins| == 1;
    assert admins == {id} ==> id in admins;
  }

  /** The password tried for the user found is its password, and the account is not locked. */
  predicate Proves(w: World, r: Request, env: Env)
    requires r.Login?
  {
    && r.username != "" && r.password != "" && r.found.Some? && r.found.value in w.users
    && w.users[r.found.value].account.lockedUntil <= r.checked
    && env.matches(w.users[r.found.value].passwordHash, r.password)
  }

  /** The session that a login of this user creates: eight hours. */
  function Opened(w: World, r: Request, env: Env): Session
    requires r.Login? && r.found.Some? && r.found.value in w.users
  {
    var u := w.users[r.found.value];
    Session(r.token, u.id, u.username, u.role, env.now + 28_800_000_000_000)
  }

  /** A login creates a session exactly if it proves the password; then the failures are cleared.  Otherwise
      no session changes. */
  lemma LoginExactly(w: World, r: Request, env: Env)
    requires r.Login? && IdsMatch(w.users)
    ensures Accepted(w, r, env) <==> Proves(w, r, env)
    ensures Proves(w, r, env) ==>
              Next(w, r, env) == World(w.users[r.found.value := w.users[r.found.value].(account := w.users[r.found.value].account.(failed := 0))],
                                       w.sessions[r.token := Opened(w, r, env)])
    ensures !Proves(w, r, env) ==> Next(w, r, env).sessions == w.sessions
  {
  }

  // ---- Where sessions come from ----

  /** Call `k` of the run is the login that created this session. */
  ghost predicate CreatedAt(w: World, calls: seq<Call>, k: nat, s: Session)
    requires k < |calls|
  {
    var before, r, env := RunAll(w, calls[..k]), calls[k].request, calls[k].env;
    r.Login? && Proves(before, r, env) && s == Opened(before, r, env)
  }

  lemma OneStepOrigin(w: World, r: Request, env: Env, t: string)
    requires IdsMatch(w.users) && t in Next(w, r, env).sessions
    ensures (t in w.sessions && w.sessions[t] == Next(w, r, env).sessions[t])
            || (r.Login? && r.token == t && Proves(w, r, env) && Next(w, r, env).sessions[t] == Opened(w, r, env))
  {
    if r.Login? { LoginExactly(w, r, env); }
  }

  lemma RunFront(w: World, calls: seq<Call>, k: nat)
    requires 0 < k <= |calls|
    ensures RunAll(w, calls[..k]) == RunAll(Next(w, calls[0].request, calls[0].env), calls[1..][..k - 1])
  {
    hide Next;
    assert calls[..k][0] == calls[0] && calls[..k][1..] == calls[1..][..k - 1];
  }

  /** Every session was there at the start or was created by a login of the run for its user, with that
      user's password and while its account was not locked. */
  lemma {:induction false} SessionOrigin(w: World, calls: seq<Call>, t: string)
    requires IdsMatch(w.users) && Honest(w, calls) && t in RunAll(w, calls).sessions
    ensures var s := RunAll(w, calls).sessions[t];
            (t in w.sessions && w.sessions[t] == s) || exists k: nat :: k < |calls| && CreatedAt(w, calls, k, s)
    decreases |calls|
  {
    hide IdsMatch, Fresh, Next, Proves, CreatedAt, Opened;
    if calls != [] {
      var r, env := calls[0].request, calls[0].env;
      var next := Next(w, r, env);
      IdsKept(w, r, env);
      SessionOrigin(next, calls[1..], t);
      var s := RunAll(w, calls).sessions[t];
      if t in next.sessions && next.sessions[t] == s {
        OneStepOrigin(w, r, env, t);
        if !(t in w.sessions && w.sessions[t] == s) { CreatedFirst(w, calls, s); }
      } else {
        var k: nat :| k < |calls[1..]| && CreatedAt(next, calls[1..], k, s);
        CreatedLater(w, calls, k, s);
      }
    }
  }

  lemma CreatedFirst(w: World, calls: seq<Call>, s: Session)
    requires calls != [] && calls[0].request.Login? && Proves(w, calls[0].request, calls[0].env)
    requires s == Opened(w, calls[0].request, calls[0].env)
    ensures CreatedAt(w, calls, 0, s)
  {
    hide Proves, Opened;
    assert calls[..0] == [];
  }

  lemma CreatedLater(w: World, calls: seq<Call>, k: nat, s: Session)
    requires k + 1 < |calls| && CreatedAt(Next(w, calls[0].request, calls[0].env), calls[1..], k, s)
    ensures CreatedAt(w, calls, k + 1, s)
  {
    hide Proves, Opened, Next;
    RunFront(w, calls, k + 1);
  }
}
