/** The user store, the session store, the rate limiter, and the handlers that drive them. */
module AccessControl {
  import opened Text
  import opened AccessModel
  import Lockout
  import Throttle

  class UserStore {
    var users: Users

    constructor (users: Users)
      ensures this.users == users
    {
      this.users := users;
    }

    /** The loop that looks a user name up; a map has no order, so any user of that name may be found. */
    method FindByName(username: string) returns (found: Option<string>)
      ensures found.Some? ==> found.value in users && users[found.value].username == username
      ensures found.None? ==> !HasName(users, username)
    {
      var rest := users.Keys;
      while rest != {}
        invariant rest <= users.Keys
        invariant forall id :: id in users && id !in rest ==> users[id].username != username
        decreases rest
      {
        var id :| id in rest;
        if users[id].username == username { return Some(id); }
        rest := rest - {id};
      }
      return None;
    }

    /** `Authenticate`. */
    method Authenticate(username: string, password: string, matches: (string, string) -> bool, checked: int, stamped: int)
      returns (granted: Option<User>, found: Option<string>)
      requires forall id :: id in users ==> users[id].id == id
      modifies this
      ensures found.Some? ==> found.value in old(users) && old(users)[found.value].username == username
      ensures found.None? ==> !HasName(old(users), username) && granted == None && users == old(users)
      ensures found.Some? ==>
                var u := old(users)[found.value];
                var a := Lockout.Attempt(u.account, matches(u.passwordHash, password), checked, stamped);
                && users == old(users)[u.id := u.(account := a.account)]
                && granted == if a.verdict == Lockout.Granted then Some(users[u.id]) else None
      ensures granted.Some? <==>
                found.Some? && var u := old(users)[found.value]; u.account.lockedUntil <= checked && matches(u.passwordHash, password)
      ensures granted.Some? ==>
                && granted.value == users[found.value]
                && users[found.value] == old(users)[found.value].(account := old(users)[found.value].account.(failed := 0))
    {
      found := FindByName(username);
      if found == None { return None, found; }
      var u := users[found.value];
      if checked < u.account.lockedUntil {
        assert users == users[u.id := u];
        return None, found;
      }
      if !matches(u.passwordHash, password) {
        u := u.(account := u.account.(failed := u.account.failed + 1));
        if u.account.failed >= Lockout.MAX_FAILURES {
          u := u.(account := u.account.(lockedUntil := stamped + Lockout.LOCK_TIME));
        }
        users := users[u.id := u];
        return None, found;
      }
      u := u.(account := u.account.(failed := 0));
      users := users[u.id := u];
      return Some(u), found;
    }

    /** `Create`; the new user stays in memory even when the save fails. */
    method Create(username: string, password: string, hash: string, role: Role, newId: string, saved: bool) returns (ok: bool)
      modifies this
      ensures var accepted := |password| >= MIN_PASSWORD && ValidRole(role) && !HasName(old(users), username);
              && ok == (accepted && saved)
              && users == if accepted then old(users)[newId := User(newId, username, hash, role, Lockout.Account(0, 0))]
                          else old(users)
    {
      if |password| < MIN_PASSWORD || !ValidRole(role) { return false; }
      var taken := FindByName(username);
      if taken.Some? { return false; }
      users := users[newId := User(newId, username, hash, role, Lockout.Account(0, 0))];
      return saved;
    }

    /** `UpdateRole`. */
    method UpdateRole(id: string, role: Role, saved: bool) returns (ok: bool)
      modifies this
      ensures ok == (ValidRole(role) && id in old(users) && saved)
      ensures users == if ValidRole(role) && id in old(users) then old(users)[id := old(users)[id].(role := role)]
                       else old(users)
    {
      if !ValidRole(role) || id !in users { return false; }
      users := users[id := users[id].(role := role)];
      return saved;
    }

    /** `UpdatePassword`. */
    method UpdatePassword(id: string, password: string, hash: string, saved: bool) returns (ok: bool)
      modifies this
      ensures ok == (|password| >= MIN_PASSWORD && id in old(users) && saved)
      ensures users == if |password| >= MIN_PASSWORD && id in old(users)
                       then old(users)[id := old(users)[id].(passwordHash := hash)] else old(users)
    {
      if |password| < MIN_PASSWORD || id !in users { return false; }
      users := users[id := users[id].(passwordHash := hash)];
      return saved;
    }

    /** `Delete`. */
    method Delete(id: string, saved: bool) returns (ok: bool)
      modifies this
      ensures ok == (id in old(users) && saved) && users == old(users) - {id}
    {
      if id !in users {
        assert users == users - {id};
        return false;
      }
      users := users - {id};
      return saved;
    }

    /** `UnlockUser`. */
    method UnlockUser(id: string) returns (ok: bool)
      modifies this
      ensures ok == (id in old(users))
      ensures users == if ok then old(users)[id := old(users)[id].(account := Lockout.Account(0, 0))] else old(users)
    {
      if id !in users { return false; }
      users := users[id := users[id].(account := Lockout.Account(0, 0))];
      return true;
    }

    /** `AdminCount`. */
    method AdminCount() returns (n: nat)
      ensures n == |AdminIds(users)|
    {
      n := 0;
      var rest := users.Keys;
      ghost var counted: set<string> := {};
      while rest != {}
        invariant rest <= users.Keys && n == |counted|
        invariant counted == (set id | id in users && id !in rest && users[id].role == Admin)
        decreases rest
      {
        var id :| id in rest;
        rest := rest - {id};
        if users[id].role == Admin {
          n := n + 1;
          counted := counted + {id};
        }
      }
      assert counted == AdminIds(users);
    }
  }

  class SessionStore {
    var sessions: Sessions

    constructor ()
      ensures sessions == map[]
    {
      sessions := map[];
    }

    /** `Create`. */
    method Create(u: User, token: string, now: int)
      modifies this
      ensures sessions == old(sessions)[token := Session(token, u.id, u.username, u.role, now + SESSION_TTL)]
    {
      sessions := sessions[token := Session(token, u.id, u.username, u.role, now + SESSION_TTL)];
    }

    /** `Get`. */
    method Lookup(token: string, now: int) returns (s: Option<Session>)
      modifies this
      ensures (sessions, s) == Get(old(sessions), token, now)
      ensures s.Some? <==> token in old(sessions) && now <= old(sessions)[token].expiresAt
      ensures sessions == if s.Some? then old(sessions) else old(sessions) - {token}
      ensures s.Some? ==> s.value == sessions[token]
    {
      if token !in sessions { return None; }
      s := Some(sessions[token]);
      if now > s.value.expiresAt {
        Drop(token);
        return None;
      }
    }

    /** `Delete`. */
    method Drop(token: string)
      modifies this
      ensures sessions == old(sessions) - {token}
    {
      sessions := sessions - {token};
    }

    /** `DeleteByUserID`. */
    method DeleteByUserID(userId: string)
      modifies this
      ensures sessions == WithoutUser(old(sessions), userId)
    {
      var rest := sessions.Keys;
      ghost var before := sessions;
      while rest != {}
        invariant rest <= before.Keys
        invariant sessions == map t | t in before && (t in rest || before[t].userId != userId) :: before[t]
        decreases rest
      {
        var t :| t in rest;
        rest := rest - {t};
        if sessions[t].userId == userId {
          sessions := sessions - {t};
        }
      }
    }
  }

  class RateLimiter {
    var buckets: map<string, Throttle.Bucket>

    constructor ()
      ensures buckets == map[]
    {
      buckets := map[];
    }

    ghost function BucketOf(ip: string): Option<Throttle.Bucket>
      reads this
    {
      if ip in buckets then Some(buckets[ip]) else None
    }

    /** `Allow`. */
    method Allow(ip: string, checked: int, stamped: int) returns (ok: bool)
      modifies this
      ensures Throttle.Allowed(BucketOf(ip), ok) == Throttle.Allow(old(BucketOf(ip)), checked, stamped)
      ensures buckets - {ip} == old(buckets) - {ip}
    {
      if ip !in buckets || checked > buckets[ip].resetAt {
        buckets := buckets[ip := Throttle.Bucket(0, stamped + Throttle.WINDOW)];
        return true;
      }
      return buckets[ip].failures < Throttle.MAX_TRIES;
    }

    /** `RecordFailure`. */
    method RecordFailure(ip: string, checked: int, stamped: int)
      modifies this
      ensures BucketOf(ip) == Throttle.RecordFailure(old(BucketOf(ip)), checked, stamped)
      ensures buckets - {ip} == old(buckets) - {ip}
    {
      if ip !in buckets || checked > buckets[ip].resetAt {
        buckets := buckets[ip := Throttle.Bucket(1, stamped + Throttle.WINDOW)];
        return;
      }
      buckets := buckets[ip := buckets[ip].(failures := buckets[ip].failures + 1)];
    }

    /** `RecordSuccess` and `ClearIP`. */
    method Clear(ip: string)
      modifies this
      ensures buckets == old(buckets) - {ip}
    {
      buckets := buckets - {ip};
    }

    /** `ClearAll`. */
    method ClearAll()
      modifies this
      ensures buckets == map[]
    {
      buckets := map[];
    }
  }

  /** The dashboard's three stores and its handlers; every handler is one step of the model. */
  class Dashboard {
    const users: UserStore
    const sessions: SessionStore
    const limiter: RateLimiter

    constructor (users: UserStore, sessions: SessionStore, limiter: RateLimiter)
      ensures this.users == users && this.sessions == sessions && this.limiter == limiter
    {
      this.users, this.sessions, this.limiter := users, sessions, limiter;
    }

    ghost function State(): World
      reads users, sessions
    {
      World(users.users, sessions.sessions)
    }

    /** `requireAuth`. */
    method RequireAuth(cookie: Option<string>, now: int) returns (s: Option<Session>)
      modifies sessions
      ensures (State(), s) == Authenticated(old(State()), cookie, now)
      ensures s.Some? <==> cookie.Some? && cookie.value in old(sessions.sessions) && now <= old(sessions.sessions)[cookie.value].expiresAt
      ensures s.Some? ==> s.value == old(sessions.sessions)[cookie.value]
    {
      if cookie == None { return None; }
      s := sessions.Lookup(cookie.value, now);
    }

    /** `requireAdmin`. */
    method RequireAdmin(cookie: Option<string>, now: int) returns (s: Option<Session>)
      modifies sessions
      ensures (State(), s) == Authorized(old(State()), cookie, now)
      ensures s.Some? <==>
                && cookie.Some? && cookie.value in old(sessions.sessions) && now <= old(sessions.sessions)[cookie.value].expiresAt
                && old(sessions.sessions)[cookie.value].role == Admin
      ensures s.Some? ==> s.value == old(sessions.sessions)[cookie.value]
    {
      s := RequireAuth(cookie, now);
      if s.Some? && s.value.role != Admin { s := None; }
    }

    /** `handleLogin`; the body is the user name and the password, or does not parse.  `times` are the readings
        of the rate limiter. */
    method HandleLogin(ip: string, body: Option<(string, string)>, token: string, times: Throttle.Login,
                       checked: int, stamped: int, env: Env)
      returns (ok: bool, ghost found: Option<string>)
      requires IdsMatch(State().users) && times.counted == body.Some?
      modifies users, sessions, limiter
      ensures var a := Throttle.Allow(old(limiter.BucketOf(ip)), times.allowChecked, times.allowStamped);
              && limiter.buckets - {ip} == old(limiter.buckets) - {ip}
              && (!a.ok || body.None? ==> !ok && State() == old(State()) && limiter.BucketOf(ip) == a.bucket)
              && (a.ok && body.Some? ==>
                    && limiter.BucketOf(ip) ==
                       (if ok then None else Throttle.RecordFailure(a.bucket, times.failChecked, times.failStamped))
                    && var r := Login(body.value.0, body.value.1, found, token, checked, stamped);
                       && Fresh(old(State()), r) && State() == Next(old(State()), r, env)
                       && (ok <==> Accepted(old(State()), r, env)))
      ensures ok <==>
                && (old(limiter.BucketOf(ip)) == None || old(limiter.BucketOf(ip)).value.resetAt < times.allowChecked
                    || old(limiter.BucketOf(ip)).value.failures < 5)
                && body.Some? && body.value.0 != "" && body.value.1 != "" && found.Some?
                && var u := old(users.users)[found.value];
                   u.account.lockedUntil <= checked && env.matches(u.passwordHash, body.value.1)
      ensures found.Some? ==>
                body.Some? && found.value in old(users.users) && old(users.users)[found.value].username == body.value.0
      ensures ok ==>
                && found.value in users.users && users.users[found.value].account.failed == 0
                && var u := old(users.users)[found.value];
                   sessions.sessions == old(sessions.sessions)[token := Session(token, u.id, u.username, u.role, env.now + SESSION_TTL)]
      ensures !ok ==> sessions.sessions == old(sessions.sessions)
    {
      found := None;
      var allowed := limiter.Allow(ip, times.allowChecked, times.allowStamped);
      if !allowed { return false, None; }
      if body == None { return false, None; }
      var (username, password) := body.value;
      if username == "" || password == "" {
        limiter.RecordFailure(ip, times.failChecked, times.failStamped);
        return false, None;
      }
      var granted, who := users.Authenticate(username, password, env.matches, checked, stamped);
      found := who;
      if granted == None {
        limiter.RecordFailure(ip, times.failChecked, times.failStamped);
        return false, found;
      }
      limiter.Clear(ip);
      sessions.Create(granted.value, token, env.now);
      return true, found;
    }

    /** `handleLogout` behind `requireAuth`. */
    method HandleLogout(cookie: Option<string>, env: Env)
      modifies sessions
      ensures State() == Next(old(State()), Logout(cookie), env)
    {
      var s := RequireAuth(cookie, env.now);
      if s.Some? { sessions.Drop(s.value.token); }
    }

    /** `handleUsers`, POST, behind `requireAdmin`. */
    method HandleCreateUser(cookie: Option<string>, username: string, password: string, role: Role, newId: string,
                            hash: string, env: Env)
      modifies users, sessions
      ensures State() == Next(old(State()), CreateUser(cookie, username, password, role, newId, hash), env)
    {
      var actor := RequireAdmin(cookie, env.now);
      if actor == None || username == "" { return; }
      var _ := users.Create(username, password, hash, role, newId, env.saved);
    }

    /** `handleUserByID`, POST unlock. */
    method HandleUnlock(cookie: Option<string>, id: string, env: Env)
      modifies users, sessions
      ensures State() == Next(old(State()), Unlock(cookie, id), env)
    {
      var actor := RequireAdmin(cookie, env.now);
      if actor == None || id == "" { return; }
      var _ := users.UnlockUser(id);
    }

    /** `handleUserByID`, PUT password.  Its own check that the actor is an administrator or the user
        always passes behind `requireAdmin` and is not repeated. */
    method HandlePassword(cookie: Option<string>, id: string, password: string, hash: string, env: Env)
      modifies users, sessions
      ensures State() == Next(old(State()), ChangePassword(cookie, id, password, hash), env)
    {
      var actor := RequireAdmin(cookie, env.now);
      if actor == None || id == "" { return; }
      var ok := users.UpdatePassword(id, password, hash, env.saved);
      if !ok { return; }
      sessions.DeleteByUserID(id);
    }

    /** `handleUserByID`, PUT. */
    method HandleRole(cookie: Option<string>, id: string, role: Role, env: Env)
      modifies users, sessions
      ensures State() == Next(old(State()), ChangeRole(cookie, id, role), env)
    {
      var actor := RequireAdmin(cookie, env.now);
      if actor == None || id == "" { return; }
      if actor.value.userId == id && role != Admin { return; }
      var ok := users.UpdateRole(id, role, env.saved);
      if !ok { return; }
      sessions.DeleteByUserID(id);
    }

    /** `handleUserByID`, DELETE. */
    method HandleDelete(cookie: Option<string>, id: string, env: Env)
      modifies users, sessions
      ensures State() == Next(old(State()), DeleteUser(cookie, id), env)
    {
      var actor := RequireAdmin(cookie, env.now);
      if actor == None || id == "" || actor.value.userId == id { return; }
      var admins := users.AdminCount();
      if id in users.users && users.users[id].role == Admin && admins <= 1 { return; }
      ghost var before := users.users;
      var ok := users.Delete(id, env.saved);
      if !ok {
        assert id !in before ==> users.users == before;
        return;
      }
      sessions.DeleteByUserID(id);
    }
  }
}
