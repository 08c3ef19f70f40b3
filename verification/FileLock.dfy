/** The poll loop of the two `WithFlock` functions: non-blocking attempts on an advisory lock until one
    succeeds, one fails for good, or the deadline has passed. */
module FileLock {

  /** Nanoseconds, as `time.Duration`. */
  const PROXY_POLL := 50_000_000
  const WEB_POLL := 25_000_000
  const WEB_DEFAULT_TIMEOUT := 5_000_000_000

  datatype Attempt = Acquired | Busy | Error

  /** What the loop meets: `attempt(k)` is the outcome of the k-th flock call, `clock(0)` the reading the
      deadline is computed from, and `clock(k)` the reading after the k-th busy attempt. */
  datatype Env = Env(attempt: nat -> Attempt, clock: nat -> int)

  predicate Poll(poll: int) {
    poll == PROXY_POLL || poll == WEB_POLL
  }

  /** Between two busy attempts lies a sleep of at least the poll interval. */
  ghost predicate SleepsAtLeast(env: Env, poll: int) {
    env.clock(0) <= env.clock(1) && forall k: nat :: 1 <= k ==> env.clock(k) + poll <= env.clock(k + 1)
  }

  datatype Outcome = Locked(attempts: nat) | TimedOut(attempts: nat) | Broken(attempts: nat)

  /** The loop gives up after a busy k-th attempt. */
  predicate GivesUp(env: Env, timeout: int, failFast: bool, k: nat) {
    (failFast && timeout <= 0) || env.clock(k) > env.clock(0) + timeout
  }

  /** The outcome of polling, said without a loop: every attempt but the last was busy and within the
      deadline, and the last one decides. */
  ghost predicate Polled(env: Env, timeout: int, failFast: bool, r: Outcome) {
    && 1 <= r.attempts
    && (forall k: nat :: 1 <= k < r.attempts ==> env.attempt(k) == Busy && !GivesUp(env, timeout, failFast, k))
    && match r
       case Locked(n) => env.attempt(n) == Acquired
       case Broken(n) => env.attempt(n) == Error
       case TimedOut(n) => env.attempt(n) == Busy && GivesUp(env, timeout, failFast, n)
  }

  function Elapsed(k: nat, poll: int): int
    requires Poll(poll)
  {
    if poll == PROXY_POLL then k * PROXY_POLL else k * WEB_POLL
  }

  function Quotient(timeout: int, poll: int): int
    requires Poll(poll)
  {
    if poll == PROXY_POLL then timeout / PROXY_POLL else timeout / WEB_POLL
  }

  /** The most attempts a call can make. */
  function MaxAttempts(timeout: int, poll: int, failFast: bool): int
    requires Poll(poll)
  {
    if timeout <= 0 && failFast then 1 else if timeout < 0 then 1 else Quotient(timeout, poll) + 2
  }

  lemma {:induction false} ClockAfter(env: Env, poll: int, k: nat)
    requires Poll(poll) && SleepsAtLeast(env, poll) && 1 <= k
    ensures env.clock(k) >= env.clock(0) + Elapsed(k - 1, poll)
  {
    if k > 1 {
      ClockAfter(env, poll, k - 1);
      assert env.clock(k - 1) + poll <= env.clock(k - 1 + 1);
    }
  }

  method PollLoop(env: Env, timeout: int, poll: int, failFast: bool) returns (r: Outcome)
    requires Poll(poll) && SleepsAtLeast(env, poll)
    ensures Polled(env, timeout, failFast, r)
    ensures r.attempts <= MaxAttempts(timeout, poll, failFast)
  {
    var deadline := env.clock(0) + timeout;
    var n := 1;
    while true
      invariant 1 <= n <= MaxAttempts(timeout, poll, failFast)
      invariant forall k: nat :: 1 <= k < n ==> env.attempt(k) == Busy && !GivesUp(env, timeout, failFast, k)
      decreases MaxAttempts(timeout, poll, failFast) - n
    {
      var attempt := env.attempt(n);
      if attempt == Acquired { return Locked(n); }
      if attempt == Error { return Broken(n); }
      if (failFast && timeout <= 0) || env.clock(n) > deadline { return TimedOut(n); }
      ClockAfter(env, poll, n);
      n := n + 1;
    }
  }

  /** `WithFlock` of tls-proxy up to the lock: a timeout of zero or less means one attempt. */
  method ProxyLock(env: Env, timeout: int) returns (r: Outcome)
    requires SleepsAtLeast(env, PROXY_POLL)
    ensures Polled(env, timeout, true, r)
    ensures timeout <= 0 ==> r.attempts == 1
    ensures timeout > 0 ==> r.attempts <= timeout / 50_000_000 + 2
  {
    r := PollLoop(env, timeout, PROXY_POLL, true);
  }

  /** `WithFlock` of webui up to the lock: a timeout of zero or less means five seconds. */
  method WebLock(env: Env, timeout: int) returns (r: Outcome)
    requires SleepsAtLeast(env, WEB_POLL)
    ensures var t := if timeout <= 0 then WEB_DEFAULT_TIMEOUT else timeout;
            Polled(env, t, false, r) && r.attempts <= t / 25_000_000 + 2
  {
    var t := if timeout <= 0 then WEB_DEFAULT_TIMEOUT else timeout;
    r := PollLoop(env, t, WEB_POLL, false);
  }

  /** `Polled` leaves one outcome only. */
  lemma PolledOnce(env: Env, timeout: int, failFast: bool, r: Outcome, q: Outcome)
    requires Polled(env, timeout, failFast, r) && Polled(env, timeout, failFast, q)
    ensures r == q
  {
    assert r.attempts < q.attempts ==>
             env.attempt(r.attempts) == Busy && !GivesUp(env, timeout, failFast, r.attempts);
    assert q.attempts < r.attempts ==>
             env.attempt(q.attempts) == Busy && !GivesUp(env, timeout, failFast, q.attempts);
  }

  function ExactClock(k: nat, poll: int): int
    requires Poll(poll)
  {
    if k == 0 then 0 else Elapsed(k - 1, poll)
  }

  /** The bound is exact: a lock that stays busy under a clock that advances by the poll interval alone is
      tried that often, for every timeout. */
  lemma BoundIsReached(timeout: int, poll: int, failFast: bool) returns (env: Env)
    requires Poll(poll)
    ensures SleepsAtLeast(env, poll)
    ensures Polled(env, timeout, failFast, TimedOut(MaxAttempts(timeout, poll, failFast)))
  {
    env := Env((k: nat) => Busy, (k: nat) => ExactClock(k, poll));
    forall k: nat | 1 <= k ensures env.clock(k) + poll <= env.clock(k + 1) {
      assert env.clock(k) == Elapsed(k - 1, poll) && env.clock(k + 1) == Elapsed(k, poll);
    }
    var n: nat := MaxAttempts(timeout, poll, failFast);
    forall k: nat | 1 <= k < n ensures !GivesUp(env, timeout, failFast, k) {
      assert env.clock(k) == Elapsed(k - 1, poll);
    }
    assert GivesUp(env, timeout, failFast, n) by {
      assert env.clock(n) == Elapsed(n - 1, poll);
    }
  }
}
