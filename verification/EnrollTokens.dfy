/** The operations on enroll-tokens.json: tls-proxy's consumption and webui's EnrollTokenStore. */
module EnrollTokens {
  import opened Text
  import opened LockedFile
  import opened TokenFile
  import FileLock

  /** The file behind the lock.  A method's pre-state is what the file holds when its lock is obtained. */
  class SharedFile {
    var content: Content

    constructor (c: Content)
      ensures content == c
    {
      content := c;
    }

    /** Temporary file and rename: all or nothing. */
    method Store(c: Content, writable: bool) returns (ok: bool)
      modifies this
      ensures ok == writable && content == if writable then c else old(content)
    {
      ok := writable;
      if writable { content := c; }
    }
  }

  /** Whether reading and writing the file works this time. */
  datatype Disk = Disk(readable: bool, writable: bool)

  datatype Failure = LockTimedOut | LockFailed | Unreadable | NotFound | AlreadyConsumed | Expired | NotPersisted

  function LockFailure(r: FileLock.Outcome): Failure {
    if r.TimedOut? then LockTimedOut else LockFailed
  }

  /** The first record of the token, as it is after its consumption. */
  function MatchedRecord(c: Content, token: string, now: int): Option<ProxyToken> {
    match ReadProxy(c)
    case None => None
    case Some(tokens) =>
      var i := FirstToken(tokens, token, 0);
      if i == |tokens| then None else Some(Spend(tokens[i], now))
  }

  /** `consumeEnrollToken`. */
  method ConsumeEnrollToken(file: SharedFile, token: string, now: int, timeout: int, env: FileLock.Env, disk: Disk)
    returns (matched: Option<ProxyToken>, failure: Option<Failure>, ghost lock: FileLock.Outcome)
    requires FileLock.SleepsAtLeast(env, FileLock.PROXY_POLL)
    modifies file
    ensures FileLock.Polled(env, timeout, true, lock)
    ensures matched.Some? <==> failure.None?
    ensures !lock.Locked? ==> failure == Some(LockFailure(lock)) && file.content == old(file.content)
    ensures lock.Locked? && !disk.readable ==> failure == Some(Unreadable) && file.content == old(file.content)
    ensures lock.Locked? && disk.readable ==>
              match Apply(Consume(token, now), old(file.content))
              case Refuse =>
                && file.content == old(file.content) && matched == None
                && failure == Some(match ReadProxy(old(file.content))
                                   case None => Unreadable
                                   case Some(ts) =>
                                     var i := FirstToken(ts, token, 0);
                                     if i == |ts| then NotFound
                                     else if ts[i].consumedAt != ZERO then AlreadyConsumed
                                     else Expired)
              case Replace(next) =>
                if disk.writable then
                  file.content == next && matched == MatchedRecord(old(file.content), token, now)
                else file.content == old(file.content) && failure == Some(NotPersisted)
              case Keep => false
    ensures matched.Some? ==> matched.value.token == token && matched.value.consumedAt == now
    ensures failure == Some(Unreadable) <==>
              lock.Locked? && (!disk.readable || old(file.content).WebArray? || old(file.content) == Garbled)
  {
    var r := FileLock.ProxyLock(env, timeout);
    lock := r;
    matched := None;
    if !r.Locked? { failure := Some(LockFailure(r)); return; }
    if !disk.readable || ReadProxy(file.content) == None { failure := Some(Unreadable); return; }
    var tokens := ReadProxy(file.content).value;
    ghost var before := tokens;
    for i := 0 to |tokens|
      invariant tokens == before && file.content == old(file.content) && matched == None
      invariant i <= FirstToken(before, token, 0)
    {
      if tokens[i].token != token { continue; }
      assert FirstToken(before, token, 0) == i;
      if tokens[i].consumedAt != ZERO { failure := Some(AlreadyConsumed); return; }
      if tokens[i].expiresAt != ZERO && now > tokens[i].expiresAt { failure := Some(Expired); return; }
      tokens := tokens[i := tokens[i].(consumedAt := now)];
      tokens := tokens[i := tokens[i].(usedCount := tokens[i].usedCount + 1)];
      assert tokens == before[i := Spend(before[i], now)];
      var stored := file.Store(ProxyObject(tokens), disk.writable);
      if !stored { failure := Some(NotPersisted); return; }
      FirstTokenIs(tokens, token, i);
      return Some(tokens[i]), None, r;
    }
    failure := Some(NotFound);
  }

  // ---- webui ----

  datatype CreateError = TooLong | TooManyUses | NotCreated(why: Failure)

  const MAX_HOURS := 720
  const MAX_USES := 1000
  const HOUR := 3_600_000_000_000

  /** The record `Create` builds from its options, or the reason it builds none. */
  function NewRecord(id: string, description: string, hash: string, createdBy: string, hours: int, uses: int, now: int)
    : (r: Option<WebToken>)
    ensures r.Some? <==> hours <= MAX_HOURS && uses <= MAX_USES
    ensures r.Some? ==> 1 <= r.value.maxUses <= MAX_USES && now + HOUR <= r.value.expiresAt <= now + MAX_HOURS * HOUR
    ensures r.Some? && hours <= 0 ==> r.value.expiresAt == now + 24 * HOUR
    ensures r.Some? && hours > 0 ==> r.value.expiresAt == now + hours * HOUR
    ensures r.Some? ==> r.value.maxUses == if uses <= 0 then 1 else uses
    ensures r.Some? ==> r.value.description == description && r.value.tokenHash == hash && r.value.createdBy == createdBy
    ensures r.Some? ==> r.value.usedCount == 0 && !r.value.revoked && r.value.id == id && r.value.createdAt == now
  {
    var h := if hours <= 0 then 24 else hours;
    var u := if uses <= 0 then 1 else uses;
    if h > MAX_HOURS || u > MAX_USES then None
    else Some(WebToken(id, description, hash, now, createdBy, now + h * HOUR, u, 0, false, None))
  }

  class EnrollTokenStore {
    const file: SharedFile
    var tokens: seq<WebToken>

    constructor (file: SharedFile)
      ensures this.file == file
      ensures tokens == (match ReadWeb(file.content) case Some(ts) => ts case None => [])
    {
      this.file := file;
      this.tokens := match ReadWeb(file.content) case Some(ts) => ts case None => [];
    }

    /** `reloadFromDiskUnlocked`. */
    method ReloadFromDisk(disk: Disk) returns (ok: bool)
      modifies this`tokens
      ensures ok <==> disk.readable && ReadWeb(file.content).Some?
      ensures tokens == if ok then ReadWeb(file.content).value else old(tokens)
      ensures ok <==> disk.readable && !file.content.ProxyObject? && file.content != Garbled
      ensures ok ==> tokens == if file.content.WebArray? then file.content.web else []
    {
      ok := disk.readable && ReadWeb(file.content).Some?;
      if ok { tokens := ReadWeb(file.content).value; }
    }

    /** `saveUnlocked`. */
    method Save(disk: Disk) returns (ok: bool)
      modifies file
      ensures ok == disk.writable
      ensures file.content == if ok then WebArray(tokens) else old(file.content)
    {
      ok := file.Store(WebArray(tokens), disk.writable);
    }

    /** The disk after an operation is the one its body prescribes, or untouched. */
    ghost predicate Follows(job: Job, lock: FileLock.Outcome, disk: Disk, before: Content, failure: Option<Failure>)
      reads file
    {
      if !lock.Locked? then failure == Some(LockFailure(lock)) && file.content == before
      else if !disk.readable || ReadWeb(before).None? then failure == Some(Unreadable) && file.content == before
      else
        match Apply(job, before)
        case Replace(next) =>
          if disk.writable then failure == None && file.content == next
          else failure == Some(NotPersisted) && file.content == before
        case Keep => failure == None && file.content == before
        case Refuse => failure == Some(NotFound) && file.content == before
    }

    /** `Create`, once its options have passed. */
    method Append(record: WebToken, timeout: int, env: FileLock.Env, disk: Disk)
      returns (failure: Option<Failure>, ghost lock: FileLock.Outcome)
      requires FileLock.SleepsAtLeast(env, FileLock.WEB_POLL) && timeout > 0
      modifies this`tokens, file
      ensures FileLock.Polled(env, timeout, false, lock)
      ensures Follows(TokenFile.Create(record), lock, disk, old(file.content), failure)
      ensures failure == Some(NotPersisted) || failure == None ==> ReadWeb(file.content) == Some(tokens)
    {
      var r := FileLock.WebLock(env, timeout);
      lock := r;
      if !r.Locked? { return Some(LockFailure(r)), r; }
      var ok := ReloadFromDisk(disk);
      if !ok { return Some(Unreadable), r; }
      tokens := tokens + [record];
      ok := Save(disk);
      if !ok {
        tokens := tokens[..|tokens| - 1];
        return Some(NotPersisted), r;
      }
      return None, r;
    }

    /** `Create`: the limits are checked before the lock is taken. */
    method Create(id: string, description: string, hash: string, createdBy: string, hours: int, uses: int, now: int,
                  env: FileLock.Env, disk: Disk)
      returns (created: Option<WebToken>, error: Option<CreateError>, ghost lock: Option<FileLock.Outcome>)
      requires FileLock.SleepsAtLeast(env, FileLock.WEB_POLL)
      modifies this`tokens, file
      ensures created.Some? <==> error.None?
      ensures error == Some(TooLong) <==> hours > MAX_HOURS
      ensures error == Some(TooManyUses) <==> hours <= MAX_HOURS && uses > MAX_USES
      ensures lock.Some? <==> hours <= MAX_HOURS && uses <= MAX_USES
      ensures lock.Some? ==> FileLock.Polled(env, FileLock.WEB_DEFAULT_TIMEOUT, false, lock.value)
      ensures created.Some? <==>
                && lock.Some? && lock.value.Locked?
                && disk.readable && disk.writable && ReadWeb(old(file.content)).Some?
      ensures created.Some? ==>
                && created == NewRecord(id, description, hash, createdBy, hours, uses, now)
                && Apply(TokenFile.Create(created.value), old(file.content)) == Replace(file.content)
                && file.content == WebArray(tokens)
      ensures created.None? ==> file.content == old(file.content)
    {
      var record := NewRecord(id, description, hash, createdBy, hours, uses, now);
      if hours > MAX_HOURS { return None, Some(TooLong), None; }
      if uses > MAX_USES { return None, Some(TooManyUses), None; }
      var failure, outcome := Append(record.value, FileLock.WEB_DEFAULT_TIMEOUT, env, disk);
      if failure.Some? { return None, Some(NotCreated(failure.value)), Some(outcome); }
      return record, None, Some(outcome);
    }

    /** `Revoke`. */
    method Revoke(id: string, now: int, timeout: int, env: FileLock.Env, disk: Disk)
      returns (failure: Option<Failure>, ghost lock: FileLock.Outcome)
      requires FileLock.SleepsAtLeast(env, FileLock.WEB_POLL) && timeout > 0
      modifies this`tokens, file
      ensures FileLock.Polled(env, timeout, false, lock)
      ensures Follows(TokenFile.Revoke(id, now), lock, disk, old(file.content), failure)
      ensures failure == None ==> ReadWeb(file.content) == Some(tokens)
    {
      var r := FileLock.WebLock(env, timeout);
      lock := r;
      if !r.Locked? { return Some(LockFailure(r)), r; }
      var ok := ReloadFromDisk(disk);
      if !ok { return Some(Unreadable), r; }
      ghost var before := tokens;
      for i := 0 to |tokens|
        invariant tokens == before && file.content == old(file.content)
        invariant i <= FirstId(before, id, 0)
      {
        if tokens[i].id == id {
          assert FirstId(before, id, 0) == i;
          if tokens[i].revoked { return None, r; }
          tokens := tokens[i := tokens[i].(revoked := true, revokedAt := Some(now))];
          ok := Save(disk);
          return if ok then None else Some(NotPersisted), r;
        }
      }
      return Some(NotFound), r;
    }

    /** `Delete`. */
    method Delete(id: string, timeout: int, env: FileLock.Env, disk: Disk)
      returns (failure: Option<Failure>, ghost lock: FileLock.Outcome)
      requires FileLock.SleepsAtLeast(env, FileLock.WEB_POLL) && timeout > 0
      modifies this`tokens, file
      ensures FileLock.Polled(env, timeout, false, lock)
      ensures Follows(TokenFile.Delete(id), lock, disk, old(file.content), failure)
      ensures failure == None ==> ReadWeb(file.content) == Some(tokens)
    {
      var r := FileLock.WebLock(env, timeout);
      lock := r;
      if !r.Locked? { return Some(LockFailure(r)), r; }
      var ok := ReloadFromDisk(disk);
      if !ok { return Some(Unreadable), r; }
      ghost var before := tokens;
      for i := 0 to |tokens|
        invariant tokens == before && file.content == old(file.content)
        invariant i <= FirstId(before, id, 0)
      {
        if tokens[i].id == id {
          assert FirstId(before, id, 0) == i;
          tokens := tokens[..i] + tokens[i + 1..];
          ok := Save(disk);
          return if ok then None else Some(NotPersisted), r;
        }
      }
      return Some(NotFound), r;
    }

    /** `Reload`: the next listing shows what other lock holders wrote. */
    method Reload(timeout: int, env: FileLock.Env, disk: Disk)
      returns (failure: Option<Failure>, ghost lock: FileLock.Outcome)
      requires FileLock.SleepsAtLeast(env, FileLock.WEB_POLL) && timeout > 0
      modifies this`tokens
      ensures FileLock.Polled(env, timeout, false, lock)
      ensures Follows(TokenFile.Reload, lock, disk, file.content, failure)
      ensures tokens == if failure == None then ReadWeb(file.content).value else old(tokens)
    {
      var r := FileLock.WebLock(env, timeout);
      lock := r;
      if !r.Locked? { return Some(LockFailure(r)), r; }
      var ok := ReloadFromDisk(disk);
      return if ok then None else Some(Unreadable), r;
    }
  }
}
