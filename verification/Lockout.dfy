/** Account lockout after ten consecutive failures. */
module Lockout {

  const MAX_FAILURES := 10
  const LOCK_TIME := 1_800_000_000_000 // 30 minutes in nanoseconds

  /** The two lockout fields of a user. */
  datatype Account = Account(failed: nat, lockedUntil: int)

  datatype Verdict = LockedOut | Denied | Granted

  datatype Checked = Checked(account: Account, verdict: Verdict)

  /** `Authenticate` for a user that exists: the clock is read once for the check and once, later, for
      the new lock. */
  function Attempt(a: Account, matches: bool, checked: int, stamped: int): Checked {
    if checked < a.lockedUntil then Checked(a, LockedOut)
    else if !matches then
      var failed := a.failed + 1;
      Checked(Account(failed, if failed >= MAX_FAILURES then stamped + LOCK_TIME else a.lockedUntil), Denied)
    else Checked(Account(0, a.lockedUntil), Granted)
  }

  /** When an attempt succeeds and what each outcome leaves: only a matching password on an account that is not
      locked is granted, and clears the count; a locked account is left alone; every other attempt counts, and
      from the tenth on locks the account for half an hour. */
  lemma AttemptExactly(a: Account, matches: bool, checked: int, stamped: int)
    ensures var r := Attempt(a, matches, checked, stamped);
            && (r.verdict == Granted <==> matches && a.lockedUntil <= checked)
            && (r.verdict == LockedOut <==> checked < a.lockedUntil)
            && (r.verdict == Granted ==> r.account.failed == 0 && r.account.lockedUntil == a.lockedUntil)
            && (r.verdict == LockedOut ==> r.account == a)
            && (r.verdict == Denied ==>
                  && r.account.failed == a.failed + 1
                  && r.account.lockedUntil == if a.failed < 9 then a.lockedUntil else stamped + 1_800_000_000_000)
  {
  }

  // ---- Runs of failing attempts ----

  /** An attempt with a wrong password. */
  datatype Try = Try(checked: int, stamped: int)

  ghost predicate Ordered(tries: seq<Try>) {
    && (forall i :: 0 <= i < |tries| ==> tries[i].checked <= tries[i].stamped)
    && (forall i, j :: 0 <= i < j < |tries| ==> tries[i].stamped <= tries[j].checked)
  }

  function After(a: Account, tries: seq<Try>): Account
    decreases |tries|
  {
    if tries == [] then a
    else After(Attempt(a, false, tries[0].checked, tries[0].stamped).account, tries[1..])
  }

  /** How many of the attempts get as far as comparing the password. */
  function Comparisons(a: Account, tries: seq<Try>): nat
    decreases |tries|
  {
    if tries == [] then 0
    else
      var r := Attempt(a, false, tries[0].checked, tries[0].stamped);
      (if r.verdict == LockedOut then 0 else 1) + Comparisons(r.account, tries[1..])
  }

  /** Every failure is remembered: the end of a lock clears nothing. */
  lemma {:induction false} FailuresAreRemembered(a: Account, tries: seq<Try>)
    ensures After(a, tries).failed == a.failed + Comparisons(a, tries)
    decreases |tries|
  {
    if tries != [] {
      FailuresAreRemembered(Attempt(a, false, tries[0].checked, tries[0].stamped).account, tries[1..]);
    }
  }

  /** The most comparisons an account allows up to time `last`, its first attempt being at `first`. */
  ghost function Allowance(a: Account, first: int, last: int): int {
    if a.failed < MAX_FAILURES then MAX_FAILURES - a.failed + (last - first) / LOCK_TIME
    else if last < a.lockedUntil then 0
    else 1 + (last - if a.lockedUntil < first then first else a.lockedUntil) / LOCK_TIME
  }

  lemma {:induction false} WithinAllowance(a: Account, tries: seq<Try>, first: int, last: int)
    requires Ordered(tries) && first <= last
    requires forall i :: 0 <= i < |tries| ==> first <= tries[i].checked <= last
    ensures Comparisons(a, tries) <= Allowance(a, first, last)
    decreases |tries|
  {
    if tries != [] {
      var t := tries[0];
      var next := Attempt(a, false, t.checked, t.stamped).account;
      assert first <= t.checked <= last && t.checked <= t.stamped;
      assert Ordered(tries[1..]) by {
        assert forall i :: 0 <= i < |tries[1..]| ==> tries[1..][i] == tries[i + 1];
      }
      forall i | 0 <= i < |tries[1..]| ensures t.checked <= tries[1..][i].checked <= last {
        assert tries[1..][i] == tries[i + 1];
      }
      WithinAllowance(next, tries[1..], t.checked, last);
    }
  }

  /** The lockout bound: wrong passwords tried against one account over a time D, without a success or an
      unlock, are compared at most 10 + floor(D / 30 min) times, whatever state the account starts in. */
  lemma LockoutBound(a: Account, tries: seq<Try>)
    requires Ordered(tries) && tries != []
    ensures Comparisons(a, tries) <= MAX_FAILURES + (tries[|tries| - 1].checked - tries[0].checked) / LOCK_TIME
  {
    var first, last := tries[0].checked, tries[|tries| - 1].checked;
    assert first <= last;
    forall i | 0 <= i < |tries| ensures first <= tries[i].checked <= last {
      assert i > 0 ==> tries[0].stamped <= tries[i].checked;
      assert i < |tries| - 1 ==> tries[i].stamped <= tries[|tries| - 1].checked;
    }
    WithinAllowance(a, tries, first, last);
  }

  // ---- The bound is reached ----

  /** `n` attempts, the first at `t`, one every 30 minutes. */
  function EveryHalfHour(t: int, n: nat): seq<Try>
    decreases n
  {
    if n == 0 then [] else [Try(t, t)] + EveryHalfHour(t + LOCK_TIME, n - 1)
  }

  function AtOnce(t: int, n: nat): seq<Try> {
    if n == 0 then [] else [Try(t, t)] + AtOnce(t, n - 1)
  }

  lemma {:induction false} AllCompared(a: Account, t: int, n: nat)
    requires a.failed >= MAX_FAILURES - 1 && a.lockedUntil <= t
    ensures Comparisons(a, EveryHalfHour(t, n)) == n
    decreases n
  {
    if n > 0 {
      var tries := EveryHalfHour(t, n);
      assert tries[1..] == EveryHalfHour(t + LOCK_TIME, n - 1);
      AllCompared(Attempt(a, false, t, t).account, t + LOCK_TIME, n - 1);
    }
  }

  lemma {:induction false} FirstNine(t: int, m: nat, n: nat, f: nat)
    requires f + m == MAX_FAILURES - 1
    ensures Comparisons(Account(f, t), AtOnce(t, m) + EveryHalfHour(t, n)) == m + n
    decreases m
  {
    var tries := AtOnce(t, m) + EveryHalfHour(t, n);
    if m == 0 {
      assert tries == EveryHalfHour(t, n);
      AllCompared(Account(f, t), t, n);
    } else {
      assert tries[1..] == AtOnce(t, m - 1) + EveryHalfHour(t, n);
      FirstNine(t, m - 1, n, f + 1);
    }
  }

  /** Ten attempts at once and one more whenever the lock ends are all compared: over `k` half hours an
      account that is new allows exactly 10 + k comparisons. */
  lemma LockoutBoundIsReached(t: int, k: nat)
    ensures Comparisons(Account(0, t), AtOnce(t, MAX_FAILURES - 1) + EveryHalfHour(t, k + 1)) == MAX_FAILURES + k
  {
    FirstNine(t, MAX_FAILURES - 1, k + 1, 0);
  }
}
