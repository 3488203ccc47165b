/** The lockout state machine over a run of login attempts on one account: what
    successive calls of `LoginAsync` answer and leave in the users table. */
module Lockout {
  import opened Wrappers
  import opened Calendar
  import opened UserModel
  import UserRepo
  import opened Auth

  /** One login attempt: the password typed and the time of the call. */
  datatype Attempt = Attempt(password: string, at: Instant)

  /** A state machine fed its inputs one at a time: the outputs in order and the
      final state. */
  function Run<S, A, R>(step: (S, A) -> (R, S), s: S, xs: seq<A>): (r: (seq<R>, S))
    ensures |r.0| == |xs|
    decreases |xs|
  {
    if xs == [] then ([], s)
    else
      var first := step(s, xs[0]);
      var rest := Run(step, first.1, xs[1..]);
      ([first.0] + rest.0, rest.1)
  }

  /** The i-th output is the step's output on the i-th input, from the state the
      inputs before it leave. */
  lemma {:induction false} RunAt<S, A, R>(step: (S, A) -> (R, S), s: S, xs: seq<A>, i: int)
    requires 0 <= i < |xs|
    ensures Run(step, s, xs).0[i] == step(Run(step, s, xs[..i]).1, xs[i]).0
    decreases i
  {
    if i > 0 {
      var first := step(s, xs[0]);
      RunAt(step, first.1, xs[1..], i - 1);
      assert xs[..i][0] == xs[0] && xs[..i][1..] == xs[1..][..i - 1];
    }
  }

  /** One call of `LoginAsync` under `username`, as a step of that machine. */
  function LoginStep(nextId: int, username: string, verify: (string, string) -> bool)
    : (map<int, User>, Attempt) -> (AuthResult, map<int, User>)
  {
    (rows: map<int, User>, a: Attempt) => LoginTransition(rows, nextId, username, a.password, verify, a.at)
  }

  /** The answers to `attempts`, made one after the other under `username`, and the
      table they leave. */
  function Replay(rows: map<int, User>, nextId: int, username: string, verify: (string, string) -> bool,
                  attempts: seq<Attempt>): (seq<AuthResult>, map<int, User>)
  {
    Run(LoginStep(nextId, username, verify), rows, attempts)
  }

  /** The answer to a wrong password that brings the failure count to `count`. */
  function FailureMessage(count: int): AuthMessage
  {
    if count >= MaxFailedAttempts then LockedOut(LockoutMinutes)
    else InvalidCredentialsRemaining(MaxFailedAttempts - count)
  }

  /** `rows'` is `rows` with only the failure count and the lock of account `id` changed. */
  ghost predicate OnlyCountAndLock(rows: map<int, User>, rows': map<int, User>, id: int, count: nat, lock: Option<Instant>)
  {
    && id in rows && rows'.Keys == rows.Keys
    && (forall k :: k in rows && k != id ==> rows'[k] == rows[k])
    && rows'[id] == rows[id].(failedLoginAttempts := count, lockedUntil := lock)
  }

  lemma OnlyCountAndLockTrans(a: map<int, User>, b: map<int, User>, c: map<int, User>, id: int,
                              n1: nat, l1: Option<Instant>, n2: nat, l2: Option<Instant>)
    requires OnlyCountAndLock(a, b, id, n1, l1) && OnlyCountAndLock(b, c, id, n2, l2)
    ensures OnlyCountAndLock(a, c, id, n2, l2)
  {
  }

  /** One wrong password on an account that is active and not locked at that time
      is refused with the answer for the count it reaches. */
  lemma WrongStepAnswer(rows: map<int, User>, nextId: int, username: string, verify: (string, string) -> bool,
                        a: Attempt, id: int)
    requires UserRepo.Keyed(rows, nextId) && LogsInAs(rows, nextId, username, id)
    requires rows[id].isActive && !IsLocked(rows[id], a.at) && !verify(a.password, rows[id].passwordHash)
    ensures var r := LoginTransition(rows, nextId, username, a.password, verify, a.at).0;
      !r.success && r.message == FailureMessage(rows[id].failedLoginAttempts + 1)
  {
    LoginWrongPassword(rows, nextId, username, a.password, verify, a.at, id);
  }

  /** It changes only the account's count, and its lock when the count reaches the
      threshold; the name still reaches the account. */
  lemma WrongStep(rows: map<int, User>, nextId: int, username: string, verify: (string, string) -> bool,
                  a: Attempt, id: int)
    requires UserRepo.Keyed(rows, nextId) && LogsInAs(rows, nextId, username, id)
    requires rows[id].isActive && !IsLocked(rows[id], a.at) && !verify(a.password, rows[id].passwordHash)
    ensures var rows' := LoginTransition(rows, nextId, username, a.password, verify, a.at).1;
      var count := rows[id].failedLoginAttempts + 1;
      && UserRepo.Keyed(rows', nextId) && LogsInAs(rows', nextId, username, id)
      && OnlyCountAndLock(rows, rows', id, count,
                          if count >= MaxFailedAttempts then Some(a.at + LockoutDuration) else rows[id].lockedUntil)
  {
    var rows' := LoginTransition(rows, nextId, username, a.password, verify, a.at).1;
    LoginWrongPassword(rows, nextId, username, a.password, verify, a.at, id);
    UserRepo.FindByUsernameIgnoresOtherColumns(rows, rows', nextId, username);
  }

  /** Where a run of `n` wrong passwords leaves the lock of an account whose count
      was `count` and whose lock was `lock`. */
  function LockAfterRun(attempts: seq<Attempt>, count: nat, lock: Option<Instant>): Option<Instant>
  {
    if |attempts| > 0 && count + |attempts| >= MaxFailedAttempts then Some(attempts[|attempts| - 1].at + LockoutDuration)
    else lock
  }

  /** The precondition of a run of wrong passwords: an active account, not locked at
      the time of any attempt, none of whose passwords matches, and a run that stops
      at the threshold. */
  ghost predicate WrongRun(rows: map<int, User>, nextId: int, username: string,
                           verify: (string, string) -> bool, attempts: seq<Attempt>, id: int)
  {
    && UserRepo.Keyed(rows, nextId) && LogsInAs(rows, nextId, username, id)
    && rows[id].isActive
    && rows[id].failedLoginAttempts + |attempts| <= MaxFailedAttempts
    && forall i :: 0 <= i < |attempts| ==>
         !IsLocked(rows[id], attempts[i].at) && !verify(attempts[i].password, rows[id].passwordHash)
  }

  /** After its first wrong password, the rest of a run is again a run. */
  lemma WrongRunRest(rows: map<int, User>, nextId: int, username: string,
                     verify: (string, string) -> bool, attempts: seq<Attempt>, id: int)
    requires WrongRun(rows, nextId, username, verify, attempts, id) && attempts != []
    requires rows[id].failedLoginAttempts + 1 < MaxFailedAttempts
    ensures var rows1 := LoginTransition(rows, nextId, username, attempts[0].password, verify, attempts[0].at).1;
      WrongRun(rows1, nextId, username, verify, attempts[1..], id)
  {
    WrongStep(rows, nextId, username, verify, attempts[0], id);
    var rest := attempts[1..];
    assert forall i :: 0 <= i < |rest| ==> rest[i] == attempts[i + 1];
  }

  /** What a run of wrong passwords leaves: a table with the same keys in which
      `username` still reaches `id`, whose count grew by the length of the run and
      whose lock is as `LockAfterRun` says; nothing else changes. */
  ghost predicate RunLeaves(rows: map<int, User>, rows': map<int, User>, nextId: int, username: string,
                            attempts: seq<Attempt>, id: int)
    requires id in rows
  {
    && UserRepo.Keyed(rows', nextId) && LogsInAs(rows', nextId, username, id)
    && OnlyCountAndLock(rows, rows', id, rows[id].failedLoginAttempts + |attempts|,
                        LockAfterRun(attempts, rows[id].failedLoginAttempts, rows[id].lockedUntil))
  }

  /** A single wrong password that reaches the threshold is a whole run. */
  lemma RunLeavesLast(rows: map<int, User>, rows1: map<int, User>, nextId: int, username: string,
                      attempts: seq<Attempt>, id: int)
    requires |attempts| == 1 && id in rows && rows[id].failedLoginAttempts + 1 >= MaxFailedAttempts
    requires UserRepo.Keyed(rows1, nextId) && LogsInAs(rows1, nextId, username, id)
    requires OnlyCountAndLock(rows, rows1, id, rows[id].failedLoginAttempts + 1, Some(attempts[0].at + LockoutDuration))
    ensures RunLeaves(rows, rows1, nextId, username, attempts, id)
  {
  }

  /** A wrong password below the threshold followed by a run is a run. */
  lemma RunLeavesCons(rows: map<int, User>, rows1: map<int, User>, rowsN: map<int, User>, nextId: int,
                      username: string, attempts: seq<Attempt>, id: int)
    requires attempts != [] && id in rows && rows[id].failedLoginAttempts + 1 < MaxFailedAttempts
    requires OnlyCountAndLock(rows, rows1, id, rows[id].failedLoginAttempts + 1, rows[id].lockedUntil)
    requires RunLeaves(rows1, rowsN, nextId, username, attempts[1..], id)
    ensures RunLeaves(rows, rowsN, nextId, username, attempts, id)
  {
    var c := rows[id].failedLoginAttempts;
    assert LockAfterRun(attempts[1..], c + 1, rows[id].lockedUntil) == LockAfterRun(attempts, c, rows[id].lockedUntil);
    OnlyCountAndLockTrans(rows, rows1, rowsN, id, c + 1, rows[id].lockedUntil,
                          c + |attempts|, LockAfterRun(attempts, c, rows[id].lockedUntil));
  }

  /** Up to the threshold, a run of wrong passwords on an active account that is
      not locked at any of their times: the count grows by the length of the run,
      and the lock is untouched unless the run reaches the threshold, in which case
      it ends 30 minutes after the last attempt. Nothing else in the table changes. */
  lemma {:induction false} WrongPasswordStreak(rows: map<int, User>, nextId: int, username: string,
                                               verify: (string, string) -> bool, attempts: seq<Attempt>, id: int)
    requires WrongRun(rows, nextId, username, verify, attempts, id)
    ensures RunLeaves(rows, Replay(rows, nextId, username, verify, attempts).1, nextId, username, attempts, id)
    decreases |attempts|
  {
    if attempts == [] {
      assert rows[id].(failedLoginAttempts := rows[id].failedLoginAttempts, lockedUntil := rows[id].lockedUntil) == rows[id];
    } else {
      var a := attempts[0];
      var rows1 := LoginTransition(rows, nextId, username, a.password, verify, a.at).1;
      WrongStep(rows, nextId, username, verify, a, id);
      var rest := attempts[1..];
      var rowsN := Replay(rows1, nextId, username, verify, rest).1;
      assert Replay(rows, nextId, username, verify, attempts).1 == rowsN;
      if rows[id].failedLoginAttempts + 1 < MaxFailedAttempts {
        WrongRunRest(rows, nextId, username, verify, attempts, id);
        WrongPasswordStreak(rows1, nextId, username, verify, rest, id);
        RunLeavesCons(rows, rows1, rowsN, nextId, username, attempts, id);
      } else {
        assert rowsN == rows1;
        RunLeavesLast(rows, rows1, nextId, username, attempts, id);
      }
    }
  }

  /** `rs` are the answers to wrong passwords that bring the count from `count` up
      one at a time. */
  ghost predicate CountingDown(rs: seq<AuthResult>, count: nat)
  {
    forall i :: 0 <= i < |rs| ==> !rs[i].success && rs[i].message == FailureMessage(count + i + 1)
  }

  /** A prefix of a run of wrong passwords is one. */
  lemma WrongRunPrefix(rows: map<int, User>, nextId: int, username: string,
                       verify: (string, string) -> bool, attempts: seq<Attempt>, id: int, i: int)
    requires WrongRun(rows, nextId, username, verify, attempts, id) && 0 <= i <= |attempts|
    ensures WrongRun(rows, nextId, username, verify, attempts[..i], id)
  {
    assert forall j :: 0 <= j < i ==> attempts[..i][j] == attempts[j];
  }

  /** The answers to such a run: the i-th reflects the failure count reached after it. */
  lemma WrongPasswordAnswers(rows: map<int, User>, nextId: int, username: string,
                             verify: (string, string) -> bool, attempts: seq<Attempt>, id: int)
    requires WrongRun(rows, nextId, username, verify, attempts, id)
    ensures |Replay(rows, nextId, username, verify, attempts).0| == |attempts|
    ensures CountingDown(Replay(rows, nextId, username, verify, attempts).0, rows[id].failedLoginAttempts)
  {
    var rs := Replay(rows, nextId, username, verify, attempts).0;
    forall i | 0 <= i < |attempts|
      ensures !rs[i].success && rs[i].message == FailureMessage(rows[id].failedLoginAttempts + i + 1)
    {
      WrongRunPrefix(rows, nextId, username, verify, attempts, id, i);
      WrongPasswordStreak(rows, nextId, username, verify, attempts[..i], id);
      var before := Replay(rows, nextId, username, verify, attempts[..i]).1;
      assert before[id] == rows[id].(failedLoginAttempts := rows[id].failedLoginAttempts + i);
      WrongStepAnswer(before, nextId, username, verify, attempts[i], id);
      RunAt(LoginStep(nextId, username, verify), rows, attempts, i);
    }
  }

  /** Five wrong passwords in a row on a fresh, active account: the answers count
      down 4, 3, 2, 1 attempts left, and the fifth reports a 30-minute lock. */
  lemma FiveWrongPasswordsCountDown(rows: map<int, User>, nextId: int, username: string,
                                    verify: (string, string) -> bool, attempts: seq<Attempt>, id: int)
    requires UserRepo.Keyed(rows, nextId) && LogsInAs(rows, nextId, username, id)
    requires rows[id].isActive && rows[id].failedLoginAttempts == 0 && rows[id].lockedUntil.None?
    requires |attempts| == 5
    requires forall i :: 0 <= i < 5 ==> !verify(attempts[i].password, rows[id].passwordHash)
    ensures var rs := Replay(rows, nextId, username, verify, attempts).0;
      && |rs| == 5
      && rs[0].message == InvalidCredentialsRemaining(4) && rs[1].message == InvalidCredentialsRemaining(3)
      && rs[2].message == InvalidCredentialsRemaining(2) && rs[3].message == InvalidCredentialsRemaining(1)
      && rs[4].message == LockedOut(30)
  {
    WrongPasswordAnswers(rows, nextId, username, verify, attempts, id);
    var rs := Replay(rows, nextId, username, verify, attempts).0;
    assert CountingDown(rs, 0);
    assert rs[0].message == FailureMessage(1) && rs[1].message == FailureMessage(2);
    assert rs[2].message == FailureMessage(3) && rs[3].message == FailureMessage(4);
    assert rs[4].message == FailureMessage(5);
  }

  /** After those five, the account's row holds a count of 5 and a lock ending 30
      minutes after the fifth attempt, and is otherwise as it was. */
  lemma FiveWrongPasswordsLock(rows: map<int, User>, nextId: int, username: string,
                               verify: (string, string) -> bool, attempts: seq<Attempt>, id: int)
    requires UserRepo.Keyed(rows, nextId) && LogsInAs(rows, nextId, username, id)
    requires rows[id].isActive && rows[id].failedLoginAttempts == 0 && rows[id].lockedUntil.None?
    requires |attempts| == 5
    requires forall i :: 0 <= i < 5 ==> !verify(attempts[i].password, rows[id].passwordHash)
    ensures var rows' := Replay(rows, nextId, username, verify, attempts).1;
      && UserRepo.Keyed(rows', nextId) && LogsInAs(rows', nextId, username, id) && id in rows'
      && rows'[id] == rows[id].(failedLoginAttempts := 5, lockedUntil := Some(attempts[4].at + 30 * 60))
  {
    WrongPasswordStreak(rows, nextId, username, verify, attempts, id);
    assert LockAfterRun(attempts, 0, None) == Some(attempts[4].at + LockoutDuration);
  }

  /** After a lock is set, every attempt before it ends is refused, the right
      password included, and changes nothing; the first attempt with the right
      password once it has ended succeeds and clears the count and the lock. */
  lemma LockHoldsThenExpires(rows: map<int, User>, nextId: int, username: string,
                             verify: (string, string) -> bool, id: int, password: string, t: Instant)
    requires UserRepo.Keyed(rows, nextId) && LogsInAs(rows, nextId, username, id)
    requires rows[id].isActive && rows[id].lockedUntil.Some?
    ensures t < rows[id].lockedUntil.value ==>
      LoginTransition(rows, nextId, username, password, verify, t) == (Rejected(AccountLocked(rows[id].lockedUntil.value)), rows)
    ensures t >= rows[id].lockedUntil.value && verify(password, rows[id].passwordHash) ==>
      var (r, rows') := LoginTransition(rows, nextId, username, password, verify, t);
      r.success && id in rows' && rows'[id].failedLoginAttempts == 0 && rows'[id].lockedUntil.None? && rows'[id].lastLoginDate == Some(t)
  {
    if t < rows[id].lockedUntil.value {
      LoginWhileLocked(rows, nextId, username, password, verify, t, id);
    } else if verify(password, rows[id].passwordHash) {
      LoginCorrectPassword(rows, nextId, username, password, verify, t, id);
    }
  }

  /** The count is cleared only by a successful login, not by the lock running out:
      once a lock has ended, a single wrong password locks the account again. */
  lemma ExpiredLockRelocksOnNextFailure(rows: map<int, User>, nextId: int, username: string,
                                        verify: (string, string) -> bool, id: int, password: string, t: Instant)
    requires UserRepo.Keyed(rows, nextId) && LogsInAs(rows, nextId, username, id)
    requires rows[id].isActive && rows[id].failedLoginAttempts >= MaxFailedAttempts
    requires !IsLocked(rows[id], t) && !verify(password, rows[id].passwordHash)
    ensures var (r, rows') := LoginTransition(rows, nextId, username, password, verify, t);
      r.message == LockedOut(30) && id in rows' && rows'[id].lockedUntil == Some(t + 30 * 60)
      && rows'[id].failedLoginAttempts == rows[id].failedLoginAttempts + 1
  {
    LoginWrongPassword(rows, nextId, username, password, verify, t, id);
  }

  /** The whole scenario: five wrong passwords lock the account; the right password
      during the lock is refused; after the lock the right password succeeds and the
      count is back to zero. */
  lemma LockoutScenario(rows: map<int, User>, nextId: int, username: string, password: string,
                        verify: (string, string) -> bool, wrong: seq<Attempt>, during: Instant, after: Instant, id: int)
    requires UserRepo.Keyed(rows, nextId) && LogsInAs(rows, nextId, username, id)
    requires rows[id].isActive && rows[id].failedLoginAttempts == 0 && rows[id].lockedUntil.None?
    requires |wrong| == 5
    requires forall i :: 0 <= i < 5 ==> !verify(wrong[i].password, rows[id].passwordHash)
    requires verify(password, rows[id].passwordHash)
    requires during < wrong[4].at + 30 * 60 <= after
    ensures var rows5 := Replay(rows, nextId, username, verify, wrong).1;
      var (r6, rows6) := LoginTransition(rows5, nextId, username, password, verify, during);
      var (r7, rows7) := LoginTransition(rows6, nextId, username, password, verify, after);
      && r6 == Rejected(AccountLocked(wrong[4].at + 30 * 60)) && rows6 == rows5
      && r7.success && id in rows7 && rows7[id].failedLoginAttempts == 0 && rows7[id].lockedUntil.None?
  {
    FiveWrongPasswordsLock(rows, nextId, username, verify, wrong, id);
    var rows5 := Replay(rows, nextId, username, verify, wrong).1;
    LockHoldsThenExpires(rows5, nextId, username, verify, id, password, during);
    LockHoldsThenExpires(rows5, nextId, username, verify, id, password, after);
  }
}
