/** The per-address login rate limit with its fixed windows. */
module Throttle {
  import opened Text

  const WINDOW := 900_000_000_000 // 15 minutes in nanoseconds
  const MAX_TRIES := 5

  datatype Bucket = Bucket(failures: nat, resetAt: int)

  datatype Allowed = Allowed(bucket: Option<Bucket>, ok: bool)

  /** `Allow`: the clock is read for the check and again for a new window. */
  function Allow(b: Option<Bucket>, checked: int, stamped: int): Allowed {
    if b.None? || checked > b.value.resetAt then Allowed(Some(Bucket(0, stamped + WINDOW)), true)
    else Allowed(b, b.value.failures < MAX_TRIES)
  }

  /** `RecordFailure`. */
  function RecordFailure(b: Option<Bucket>, checked: int, stamped: int): Option<Bucket> {
    if b.None? || checked > b.value.resetAt then Some(Bucket(1, stamped + WINDOW))
    else Some(Bucket(b.value.failures + 1, b.value.resetAt))
  }

  /** When a login is let through, and what the two operations leave: the check opens a new window of fifteen
      minutes after the old one, a failure counts in the window it falls into. */
  lemma WindowsExactly(b: Option<Bucket>, checked: int, stamped: int)
    ensures var over, a, f := b == None || b.value.resetAt < checked, Allow(b, checked, stamped), RecordFailure(b, checked, stamped);
            && (a.ok <==> over || b.value.failures < 5)
            && a.bucket == (if over then Some(Bucket(0, stamped + 900_000_000_000)) else b)
            && f == Some(if over then Bucket(1, stamped + 900_000_000_000) else b.value.(failures := b.value.failures + 1))
  {
  }

  // ---- Logins from one address, one after another, none successful ----

  /** The clock readings of one login; `counted` is false when its body does not parse. */
  datatype Login = Login(allowChecked: int, allowStamped: int, failChecked: int, failStamped: int, counted: bool)

  ghost predicate InOrder(l: Login) {
    l.allowChecked <= l.allowStamped <= l.failChecked <= l.failStamped
  }

  ghost predicate Sequential(logins: seq<Login>) {
    && (forall i :: 0 <= i < |logins| ==> InOrder(logins[i]))
    && (forall i, j :: 0 <= i < j < |logins| ==> logins[i].failStamped <= logins[j].allowChecked)
  }

  /** The bucket, and when each failed attempt that was let through had been recorded. */
  datatype Log = Log(bucket: Option<Bucket>, failures: seq<int>)

  function Handle(log: Log, l: Login): Log {
    var a := Allow(log.bucket, l.allowChecked, l.allowStamped);
    if a.ok && l.counted then
      Log(RecordFailure(a.bucket, l.failChecked, l.failStamped), log.failures + [l.failStamped])
    else Log(a.bucket, log.failures)
  }

  function HandleAll(log: Log, logins: seq<Login>): Log
    decreases |logins|
  {
    if logins == [] then log else Handle(HandleAll(log, logins[..|logins| - 1]), logins[|logins| - 1])
  }

  /** At most five failures in the current window; the ones before it are no later than its opening, and
      the ones five further back are more than a window older than that. */
  ghost predicate Inv(log: Log, now: int) {
    && (forall i :: 0 <= i < |log.failures| ==> log.failures[i] <= now)
    && match log.bucket
       case None => log.failures == []
       case Some(b) =>
         && b.failures <= MAX_TRIES && b.resetAt - WINDOW <= now
         && (forall i :: 0 <= i < |log.failures| - b.failures ==> log.failures[i] <= b.resetAt - WINDOW)
         && (forall i :: 0 <= i < |log.failures| - b.failures - MAX_TRIES ==> log.failures[i] < b.resetAt - 2 * WINDOW)
         && Spread(log.failures)
  }

  /** Any eleven failures in a row take more than a window. */
  ghost predicate Spread(times: seq<int>) {
    forall i, j :: 0 <= i && i + 10 <= j < |times| ==> times[j] - times[i] > WINDOW
  }

  lemma AllowKeeps(log: Log, now: int, l: Login)
    requires Inv(log, now) && InOrder(l) && now <= l.allowChecked
    ensures Inv(Log(Allow(log.bucket, l.allowChecked, l.allowStamped).bucket, log.failures), l.allowStamped)
  {
  }

  lemma RecordKeeps(log: Log, now: int, checked: int, stamped: int)
    requires Inv(log, now) && log.bucket.Some? && now <= checked <= stamped
    requires checked <= log.bucket.value.resetAt ==> log.bucket.value.failures < MAX_TRIES
    ensures Inv(Log(RecordFailure(log.bucket, checked, stamped), log.failures + [stamped]), stamped)
  {
    var b := log.bucket.value;
    var times := log.failures + [stamped];
    assert forall i :: 0 <= i < |log.failures| ==> times[i] == log.failures[i];
    forall i | 0 <= i && i + 10 <= |log.failures| ensures stamped - times[i] > WINDOW {
      if checked > b.resetAt {
        assert i < |log.failures| - b.failures;
      } else {
        assert i < |log.failures| - b.failures - MAX_TRIES;
      }
    }
  }

  lemma HandleKeeps(log: Log, now: int, l: Login)
    requires Inv(log, now) && InOrder(l) && now <= l.allowChecked
    ensures Inv(Handle(log, l), l.failStamped)
  {
    hide Inv;
    AllowKeeps(log, now, l);
    var a := Allow(log.bucket, l.allowChecked, l.allowStamped);
    var after := Log(a.bucket, log.failures);
    if a.ok && l.counted {
      RecordKeeps(after, l.allowStamped, l.failChecked, l.failStamped);
    } else {
      LaterInv(after, l.allowStamped, l.failStamped);
    }
  }

  lemma LaterInv(log: Log, now: int, later: int)
    requires Inv(log, now) && now <= later
    ensures Inv(log, later)
  {
  }

  lemma {:induction false} RunKeeps(log: Log, now: int, logins: seq<Login>)
    requires Inv(log, now) && Sequential(logins)
    requires forall i :: 0 <= i < |logins| ==> now <= logins[i].allowChecked
    ensures Inv(HandleAll(log, logins), if logins == [] then now else logins[|logins| - 1].failStamped)
    decreases |logins|
  {
    if logins != [] {
      hide Inv;
      var front, l := logins[..|logins| - 1], logins[|logins| - 1];
      RunKeeps(log, now, front);
      assert InOrder(l);
      HandleKeeps(HandleAll(log, front), if front == [] then now else front[|front| - 1].failStamped, l);
    }
  }

  /** The rate-limit bound: for logins handled one after another from one address, with no success and no
      clearing, the bucket never counts more than five failures, and failures that lie within 15 minutes
      of each other, wherever the windows fall, number at most ten. */
  lemma RateLimitBound(logins: seq<Login>)
    requires Sequential(logins)
    ensures var log := HandleAll(Log(None, []), logins);
            && (log.bucket.Some? ==> log.bucket.value.failures <= MAX_TRIES)
            && forall i, j :: 0 <= i <= j < |log.failures| && log.failures[j] - log.failures[i] <= WINDOW ==> j - i < 10
  {
    var start := if logins == [] then 0 else logins[0].allowChecked;
    forall i | 0 <= i < |logins| ensures start <= logins[i].allowChecked {
      assert InOrder(logins[0]);
    }
    RunKeeps(Log(None, []), start, logins);
  }

  // ---- The bound is reached ----

  function Instant(t: int): Login {
    Login(t, t, t, t, true)
  }

  function Burst(before: seq<Login>, t: int, n: nat): seq<Login> {
    if n == 0 then before else Burst(before, t, n - 1) + [Instant(t)]
  }

  lemma HandleNext(log: Log, logins: seq<Login>, l: Login)
    ensures HandleAll(log, logins + [l]) == Handle(HandleAll(log, logins), l)
  {
    assert (logins + [l])[..|logins|] == logins;
  }

  /** Five attempts at once all get through a window that is empty or about to open. */
  lemma {:induction false} BurstFills(before: seq<Login>, t: int, n: nat)
    requires n <= MAX_TRIES
    requires var b := HandleAll(Log(None, []), before).bucket;
             b.Some? && (t > b.value.resetAt || b.value.failures == 0)
    ensures var start, end := HandleAll(Log(None, []), before), HandleAll(Log(None, []), Burst(before, t, n));
            && |end.failures| == |start.failures| + n && start.failures <= end.failures
            && (forall i :: |start.failures| <= i < |end.failures| ==> end.failures[i] == t)
            && (n > 0 ==> end.bucket == Some(Bucket(n, if t > start.bucket.value.resetAt then t + WINDOW
                                                       else start.bucket.value.resetAt)))
  {
    hide HandleAll;
    if n > 0 {
      BurstFills(before, t, n - 1);
      HandleNext(Log(None, []), Burst(before, t, n - 1), Instant(t));
    }
  }

  lemma {:induction false} BurstIsSequential(before: seq<Login>, t: int, n: nat)
    requires Sequential(before) && forall i :: 0 <= i < |before| ==> before[i].failStamped <= t
    ensures Sequential(Burst(before, t, n))
    ensures forall i :: 0 <= i < |Burst(before, t, n)| ==> Burst(before, t, n)[i].failStamped <= t
  {
    if n > 0 { BurstIsSequential(before, t, n - 1); }
  }

  const OPENING := Login(0, 0, 0, 0, false)

  lemma OpeningWindow()
    ensures HandleAll(Log(None, []), [OPENING]) == Log(Some(Bucket(0, WINDOW)), [])
  {
    HandleNext(Log(None, []), [], OPENING);
    assert [] + [OPENING] == [OPENING];
    assert HandleAll(Log(None, []), []) == Log(None, []);
  }

  /** Ten failures can fall within one nanosecond: five at the end of a window, five as the next opens. */
  lemma RateLimitBoundIsReached() returns (logins: seq<Login>)
    ensures Sequential(logins)
    ensures var times := HandleAll(Log(None, []), logins).failures;
            |times| == 10 && forall i :: 0 <= i < 10 ==> WINDOW <= times[i] <= WINDOW + 1
  {
    OpeningWindow();
    assert Sequential([OPENING]);
    hide HandleAll, Burst, Sequential;
    var full := Burst([OPENING], WINDOW, 5);
    BurstIsSequential([OPENING], WINDOW, 5);
    BurstFills([OPENING], WINDOW, 5);
    BurstIsSequential(full, WINDOW + 1, 5);
    BurstFills(full, WINDOW + 1, 5);
    logins := Burst(full, WINDOW + 1, 5);
  }
}
