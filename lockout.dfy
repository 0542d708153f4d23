/**
 * The brute-force lockout policy and the effect one login attempt has on
 * the record of a user that was found by email.
 *
 * `LoginStep` is the net change to that record and the outcome of the
 * attempt; the login method in `AuthService` performs the same change as
 * the source does, in several writes, and is proved to end in this state.
 */
module Lockout {
  import opened Base
  import opened Records

  const MaxFailedAttempts: nat := 5
  const LockoutDurationMs: int := 30 * MinuteMs

  /** A lock is in force only while its expiry lies in the future. */
  predicate IsLocked(u: SystemUser, now: Time)
  {
    u.isLocked && u.lockedUntil.Some? && u.lockedUntil.value > now
  }

  /** The lock flag is still set but its expiry has passed (lazy unlock applies). */
  predicate LockLapsed(u: SystemUser, now: Time)
  {
    u.isLocked && u.lockedUntil.Some? && u.lockedUntil.value <= now
  }

  /** `Math.ceil((lockedUntil - now) / 60000)`. */
  function MinutesUntilUnlock(lockedUntil: Time, now: Time): (m: int)
    ensures (m - 1) * MinuteMs < lockedUntil - now <= m * MinuteMs
    ensures now < lockedUntil ==> m >= 1
  {
    var diff := lockedUntil - now;
    if diff % MinuteMs == 0 then diff / MinuteMs else diff / MinuteMs + 1
  }

  /** The write made by the lazy unlock. */
  function ClearLock(u: SystemUser): (r: SystemUser)
    ensures SameIdentity(r, u) && r.failedLoginAttempts == 0
    ensures forall t :: !IsLocked(r, t) && !LockLapsed(r, t)
    ensures r.lastLogin == u.lastLogin && r.lastFailedAttempt == u.lastFailedAttempt
  {
    u.(isLocked := false, lockedUntil := None, failedLoginAttempts := 0)
  }

  /**
   * The write made after a wrong password: the counter becomes `attempts`
   * and, from the threshold on, the account is locked for 30 minutes.
   */
  function RecordFailure(cur: SystemUser, attempts: nat, now: Time): (r: SystemUser)
    ensures SameIdentity(r, cur) && r.failedLoginAttempts == attempts && r.lastFailedAttempt == Some(now)
    ensures r.lastLogin == cur.lastLogin
    ensures attempts >= MaxFailedAttempts ==> r.lockedUntil == Some(now + LockoutDurationMs) && IsLocked(r, now)
    ensures attempts < MaxFailedAttempts ==> r.isLocked == cur.isLocked && r.lockedUntil == cur.lockedUntil
  {
    var update := cur.(failedLoginAttempts := attempts, lastFailedAttempt := Some(now));
    if attempts >= MaxFailedAttempts then
      update.(isLocked := true, lockedUntil := Some(now + LockoutDurationMs))
    else
      update
  }

  /** The write made after a correct password. */
  function RecordSuccess(cur: SystemUser, now: Time): (r: SystemUser)
    ensures SameIdentity(r, cur) && r.failedLoginAttempts == 0 && r.lastLogin == Some(now)
    ensures forall t :: !IsLocked(r, t) && !LockLapsed(r, t)
    ensures r.lastFailedAttempt == cur.lastFailedAttempt
  {
    cur.(lastLogin := Some(now), failedLoginAttempts := 0, isLocked := false, lockedUntil := None)
  }

  datatype LoginOutcome =
    | LockedOut(minutes: int)
    | Inactive
    | BadPassword(attempt: nat)
    | Succeeded

  datatype LoginStepResult = LoginStepResult(outcome: LoginOutcome, user: SystemUser)

  /** The fields that a login attempt never touches. */
  predicate SameIdentity(a: SystemUser, b: SystemUser)
  {
    a.id == b.id && a.email == b.email && a.password == b.password
    && a.firstName == b.firstName && a.lastName == b.lastName && a.role == b.role
    && a.isActive == b.isActive && a.createdAt == b.createdAt
  }

  /**
   * One login attempt against the stored record `u`, with `passwordOk` the
   * result of comparing the password with `u.password`. The checks run in
   * the source's order: locked, lazy unlock, inactive, password. After a
   * lazy unlock the failure counter is still the one read from `u`.
   */
  function LoginStep(u: SystemUser, passwordOk: bool, now: Time): (r: LoginStepResult)
    ensures SameIdentity(r.user, u)
    ensures r.outcome.LockedOut? <==> IsLocked(u, now)
    ensures r.outcome.Succeeded? <==> !IsLocked(u, now) && u.isActive && passwordOk
  {
    if IsLocked(u, now) then
      LoginStepResult(LockedOut(MinutesUntilUnlock(u.lockedUntil.value, now)), u)
    else
      var cur := if LockLapsed(u, now) then ClearLock(u) else u;
      if !u.isActive then
        LoginStepResult(Inactive, cur)
      else if !passwordOk then
        var attempts := u.failedLoginAttempts + 1;
        LoginStepResult(BadPassword(attempts), RecordFailure(cur, attempts, now))
      else
        LoginStepResult(Succeeded, RecordSuccess(cur, now))
  }

  /** A locked account is refused before the password is looked at, and nothing is written. */
  lemma LockedAttemptChangesNothing(u: SystemUser, passwordOk: bool, now: Time)
    requires IsLocked(u, now)
    ensures LoginStep(u, passwordOk, now).user == u
    ensures LoginStep(u, passwordOk, now) == LoginStep(u, !passwordOk, now)
    ensures var o := LoginStep(u, passwordOk, now).outcome;
      o.LockedOut? && o.minutes >= 1
      && (o.minutes - 1) * MinuteMs < u.lockedUntil.value - now <= o.minutes * MinuteMs
  {
  }

  /**
   * A wrong password on an active, unlocked account counts one more failure
   * on top of the counter that was read; the attempt that reaches the
   * threshold locks the account for 30 minutes but is still reported as
   * a plain bad password.
   */
  lemma WrongPasswordCounts(u: SystemUser, now: Time)
    requires !IsLocked(u, now) && u.isActive
    ensures var r := LoginStep(u, false, now);
      && r.outcome == BadPassword(u.failedLoginAttempts + 1)
      && r.user.failedLoginAttempts == u.failedLoginAttempts + 1
      && r.user.lastFailedAttempt == Some(now)
      && r.user.lastLogin == u.lastLogin
      && (u.failedLoginAttempts + 1 >= MaxFailedAttempts ==>
            r.user.isLocked && r.user.lockedUntil == Some(now + LockoutDurationMs)
            && IsLocked(r.user, now))
      && (u.failedLoginAttempts + 1 < MaxFailedAttempts && !LockLapsed(u, now) ==>
            r.user.isLocked == u.isLocked && r.user.lockedUntil == u.lockedUntil)
  {
  }

  /**
   * After a lapsed lock the stored record is reset, but the failure update
   * is computed from the counter read before the reset: with four or more
   * failures on record, one wrong password locks the account again at once.
   */
  lemma LapsedLockRelocksWithStaleCounter(u: SystemUser, now: Time)
    requires LockLapsed(u, now) && u.isActive && u.failedLoginAttempts + 1 >= MaxFailedAttempts
    ensures var r := LoginStep(u, false, now);
      && r.outcome == BadPassword(u.failedLoginAttempts + 1)
      && r.user.failedLoginAttempts == u.failedLoginAttempts + 1
      && IsLocked(r.user, now)
      && r.user.lockedUntil == Some(now + LockoutDurationMs)
  {
  }

  /** A lapsed lock no longer blocks anything: the attempt proceeds and the reset is kept. */
  lemma LapsedLockIsCleared(u: SystemUser, passwordOk: bool, now: Time)
    requires LockLapsed(u, now)
    ensures var r := LoginStep(u, passwordOk, now);
      && !r.outcome.LockedOut?
      && (u.isActive && passwordOk ==> r.outcome.Succeeded?)
      && (!u.isActive ==> r.outcome.Inactive? && r.user == ClearLock(u) && !IsLocked(r.user, now))
  {
  }

  /** An inactive account is refused before the password is looked at; the counter is not raised. */
  lemma InactiveAttemptKeepsCounter(u: SystemUser, passwordOk: bool, now: Time)
    requires !IsLocked(u, now) && !u.isActive
    ensures var r := LoginStep(u, passwordOk, now);
      && r.outcome.Inactive?
      && r == LoginStep(u, !passwordOk, now)
      && r.user.failedLoginAttempts == (if LockLapsed(u, now) then 0 else u.failedLoginAttempts)
      && r.user.lastFailedAttempt == u.lastFailedAttempt
  {
  }

  /** A successful login clears the counter and the lock and stamps the login time. */
  lemma SuccessResets(u: SystemUser, now: Time)
    requires !IsLocked(u, now) && u.isActive
    ensures var r := LoginStep(u, true, now);
      && r.outcome.Succeeded?
      && r.user == u.(lastLogin := Some(now), failedLoginAttempts := 0, isLocked := false, lockedUntil := None)
      && !IsLocked(r.user, now)
  {
  }

  /**
   * Five consecutive wrong passwords on a clean, active account: the first
   * five are all reported as bad passwords (the fifth included), the fifth
   * locks the account until 30 minutes after it, and a sixth attempt within
   * that window is refused as locked whatever its password; made at the same
   * instant as the fifth it reports 30 minutes.
   */
  lemma FiveConsecutiveFailures(u0: SystemUser, t1: Time, t2: Time, t3: Time, t4: Time, t5: Time, t6: Time, ok6: bool)
    requires u0.isActive && !u0.isLocked && u0.failedLoginAttempts == 0
    requires t5 <= t6 < t5 + LockoutDurationMs
    ensures var r1 := LoginStep(u0, false, t1);
      var r2 := LoginStep(r1.user, false, t2);
      var r3 := LoginStep(r2.user, false, t3);
      var r4 := LoginStep(r3.user, false, t4);
      var r5 := LoginStep(r4.user, false, t5);
      var r6 := LoginStep(r5.user, ok6, t6);
      && r1.outcome == BadPassword(1) && r2.outcome == BadPassword(2)
      && r3.outcome == BadPassword(3) && r4.outcome == BadPassword(4)
      && r5.outcome == BadPassword(5)
      && r5.user.lockedUntil == Some(t5 + LockoutDurationMs)
      && r6.outcome.LockedOut? && r6.user == r5.user
      && (t6 == t5 ==> r6.outcome.minutes == 30)
  {
    var r1 := LoginStep(u0, false, t1);
    WrongPasswordCounts(u0, t1);
    var r2 := LoginStep(r1.user, false, t2);
    WrongPasswordCounts(r1.user, t2);
    var r3 := LoginStep(r2.user, false, t3);
    WrongPasswordCounts(r2.user, t3);
    var r4 := LoginStep(r3.user, false, t4);
    WrongPasswordCounts(r3.user, t4);
    var r5 := LoginStep(r4.user, false, t5);
    WrongPasswordCounts(r4.user, t5);
    assert IsLocked(r5.user, t6);
    LockedAttemptChangesNothing(r5.user, ok6, t6);
  }
}
