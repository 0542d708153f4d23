/**
 * The authentication service: login with lockout, token issuance, refresh
 * with rotation, logout (one session, one owned session, all sessions),
 * the session listing and the expiry sweep, over the shared credential
 * store.
 */
module Auth {
  import opened Base
  import opened Crypto
  import opened Records
  import opened Ordering
  import opened Sessions
  import opened Lockout
  import opened Store

  const AccessTokenTtlMs: int := 15 * MinuteMs
  const RefreshTokenTtlMs: int := 7 * DayMs

  datatype AuthTokens = AuthTokens(accessToken: Token, refreshToken: Token)

  datatype UserSummary = UserSummary(id: UserId, email: string, firstName: string, lastName: string, role: string)

  datatype SessionRef = SessionRef(id: SessionId, expiresAt: Time)

  datatype AuthResponse = AuthResponse(tokens: AuthTokens, user: UserSummary, session: SessionRef)

  /** The failures callers see; the message of `Locked` carries the minutes left. */
  datatype AuthError = InvalidCredentials | Locked(minutes: int) | BadRequest | Unauthorized

  /**
   * `generateTokens`: one payload, signed twice — with the access secret for
   * 15 minutes and with the refresh secret for 7 days.
   */
  function GenerateTokens(userId: UserId, email: string, role: string, sessionId: Option<SessionId>,
                          now: Time, accessSecret: string, refreshSecret: string): (t: AuthTokens)
    ensures t.accessToken.Signed? && t.accessToken.payload == Payload(userId, email, role, sessionId)
    ensures t.refreshToken.Signed? && t.refreshToken.payload == Payload(userId, email, role, sessionId)
    ensures forall at :: (VerifyToken(t.accessToken, accessSecret, at)
      == if at < now + AccessTokenTtlMs then Some(Payload(userId, email, role, sessionId)) else None)
    ensures forall at :: (VerifyToken(t.refreshToken, refreshSecret, at)
      == if at < now + RefreshTokenTtlMs then Some(Payload(userId, email, role, sessionId)) else None)
    ensures accessSecret != refreshSecret ==>
      forall at :: VerifyToken(t.accessToken, refreshSecret, at).None? && VerifyToken(t.refreshToken, accessSecret, at).None?
  {
    var payload := Payload(userId, email, role, sessionId);
    AuthTokens(Sign(payload, accessSecret, now + AccessTokenTtlMs), Sign(payload, refreshSecret, now + RefreshTokenTtlMs))
  }

  /** Tokens minted at different instants differ, so a refresh after the login replaces the token. */
  lemma TokensOfDifferentInstantsDiffer(userId: UserId, email: string, role: string, sessionId: Option<SessionId>,
                                        t0: Time, t1: Time, accessSecret: string, refreshSecret: string)
    requires t0 != t1
    ensures GenerateTokens(userId, email, role, sessionId, t0, accessSecret, refreshSecret).refreshToken
         != GenerateTokens(userId, email, role, sessionId, t1, accessSecret, refreshSecret).refreshToken
  {
    var a := GenerateTokens(userId, email, role, sessionId, t0, accessSecret, refreshSecret).refreshToken;
    var b := GenerateTokens(userId, email, role, sessionId, t1, accessSecret, refreshSecret).refreshToken;
    assert a.exp == t0 + RefreshTokenTtlMs && b.exp == t1 + RefreshTokenTtlMs;
  }

  /** `hashPassword`. */
  function HashPassword(password: string): (d: Digest<string>)
    ensures VerifyHash(password, d)
    ensures forall other :: other != password ==> !VerifyHash(other, d)
  {
    Hash(password)
  }

  /** Every credential-related failure looks the same to the caller; only a lock says more. */
  function ErrorFor(outcome: LoginOutcome): (e: AuthError)
    requires !outcome.Succeeded?
    ensures e.Locked? <==> outcome.LockedOut?
    ensures e.Locked? ==> e.minutes == outcome.minutes
    ensures !e.Locked? ==> e == InvalidCredentials
  {
    match outcome
    case LockedOut(m) => Locked(m)
    case Inactive => InvalidCredentials
    case BadPassword(_) => InvalidCredentials
  }

  /** The audit record written for an attempt on a user that was found. */
  function AttemptFor(email: string, ipAddress: string, userAgent: string, userId: UserId,
                      outcome: LoginOutcome, now: Time): (a: LoginAttempt)
    ensures a.email == email && a.userId == Some(userId) && a.createdAt == now
    ensures a.success <==> outcome.Succeeded?
    ensures a.success <==> a.failureReason.None?
    ensures outcome.BadPassword? ==> a.failureReason == Some(InvalidPassword(outcome.attempt))
  {
    var reason := match outcome
      case LockedOut(_) => Some(AccountLocked)
      case Inactive => Some(UserInactive)
      case BadPassword(n) => Some(InvalidPassword(n))
      case Succeeded => None;
    LoginAttempt(email, ipAddress, userAgent, outcome.Succeeded?, Some(userId), reason, now)
  }

  function Summary(u: SystemUser): UserSummary
  {
    UserSummary(u.id, u.email, u.firstName, u.lastName, u.role)
  }

  datatype RefreshTarget = RefreshTarget(user: SystemUser, session: Session)

  /**
   * The checks `refresh` makes before rotating, in order: a token is given,
   * it verifies under the refresh secret, its subject is an active user, and
   * an active session of that user holds its digest (the first such row).
   */
  function ResolveRefresh(users: map<UserId, SystemUser>, rows: seq<Session>, token: Token,
                          refreshSecret: string, now: Time): (r: Result<RefreshTarget, AuthError>)
    ensures r == Failure(BadRequest) <==> token == EmptyToken
    ensures r.Failure? ==> r.error == BadRequest || r.error == Unauthorized
    ensures r.Success? ==>
      && VerifyToken(token, refreshSecret, now).Some?
      && token.payload.sub in users
      && r.value.user == users[token.payload.sub]
      && r.value.user.isActive
      && r.value.session in rows
      && IsActiveFor(r.value.session, token.payload.sub, now)
      && Matches(r.value.session, token)
  {
    if token == EmptyToken then Failure(BadRequest)
    else match VerifyToken(token, refreshSecret, now)
      case None => Failure(Unauthorized)
      case Some(payload) =>
        if payload.sub !in users || !users[payload.sub].isActive then Failure(Unauthorized)
        else
          FilterMembers(rows, ActiveTest(payload.sub, now));
          match FirstMatch(ActiveFor(rows, payload.sub, now), token)
          case None => Failure(Unauthorized)
          case Some(s) => Success(RefreshTarget(users[payload.sub], s))
  }

  /**
   * A non-empty refresh token is refused exactly when it does not verify,
   * its subject is missing or inactive, or no active session of the subject
   * holds its digest.
   */
  lemma RefreshRefusedExactly(users: map<UserId, SystemUser>, rows: seq<Session>, token: Token,
                              refreshSecret: string, now: Time)
    requires token != EmptyToken
    ensures ResolveRefresh(users, rows, token, refreshSecret, now) == Failure(Unauthorized) <==>
      || VerifyToken(token, refreshSecret, now).None?
      || token.payload.sub !in users
      || !users[token.payload.sub].isActive
      || forall i :: 0 <= i < |rows| ==> !(IsActiveFor(rows[i], token.payload.sub, now) && Matches(rows[i], token))
  {
    if VerifyToken(token, refreshSecret, now).Some? && token.payload.sub in users && users[token.payload.sub].isActive {
      var sub := token.payload.sub;
      var a := ActiveFor(rows, sub, now);
      FilterMembers(rows, ActiveTest(sub, now));
      if exists i :: 0 <= i < |rows| && IsActiveFor(rows[i], sub, now) && Matches(rows[i], token) {
        var i :| 0 <= i < |rows| && IsActiveFor(rows[i], sub, now) && Matches(rows[i], token);
        assert ActiveTest(sub, now)(rows[i]);
        assert rows[i] in a;
        var k :| 0 <= k < |a| && a[k] == rows[i];
        assert Matches(a[k], token);
      } else {
        forall k | 0 <= k < |a| ensures !Matches(a[k], token) {
          assert a[k] in rows && ActiveTest(sub, now)(a[k]);
        }
      }
    }
  }

  /**
   * The refresh token handed out by a login is accepted by `refresh` at any
   * instant before its expiry while its user is active, and it selects the
   * session the login created.
   */
  lemma LoginTokenRefreshes(users: map<UserId, SystemUser>, rows: seq<Session>, issued: map<SessionId, Token>,
                            u: SystemUser, freshId: SessionId, ipAddress: string, userAgent: string,
                            now: Time, later: Time, accessSecret: string, refreshSecret: string)
    requires SessionsValid(rows, issued) && !HasSessionId(rows, freshId)
    requires u.id in users && users[u.id].isActive
    requires later < now + RefreshTokenTtlMs
    ensures var t := GenerateTokens(u.id, u.email, u.role, Some(freshId), now, accessSecret, refreshSecret).refreshToken;
      var s := NewSession(freshId, u.id, Hash(t), ipAddress, userAgent, now);
      ResolveRefresh(users, rows + [s], t, refreshSecret, later) == Success(RefreshTarget(users[u.id], s))
  {
    var t := GenerateTokens(u.id, u.email, u.role, Some(freshId), now, accessSecret, refreshSecret).refreshToken;
    var s := NewSession(freshId, u.id, Hash(t), ipAddress, userAgent, now);
    var r := rows + [s];
    AppendKeepsValid(rows, issued, s, t);
    var issued' := issued[freshId := t];
    assert r[|rows|] == s && IsActiveFor(s, u.id, later) && Matches(s, t);
    RefreshRefusedExactly(users, r, t, refreshSecret, later);
    var res := ResolveRefresh(users, r, t, refreshSecret, later);
    assert res.Success?;
    var k :| 0 <= k < |r| && r[k] == res.value.session;
    MatchingTokenNamesItsSession(r, issued', t, k);
    assert SessionIdOf(r[k]) == SessionIdOf(r[|rows|]);
  }

  /** A token that matches no row, such as one retired by rotation, is refused. */
  lemma RetiredTokenIsRefused(users: map<UserId, SystemUser>, rows: seq<Session>, token: Token,
                              refreshSecret: string, now: Time)
    requires token != EmptyToken
    requires forall i :: 0 <= i < |rows| ==> !Matches(rows[i], token)
    ensures ResolveRefresh(users, rows, token, refreshSecret, now) == Failure(Unauthorized)
  {
    RefreshRefusedExactly(users, rows, token, refreshSecret, now);
  }

  /**
   * After `logout` revokes a session, the refresh token issued for it is
   * refused: on a valid table it can match no other row.
   */
  lemma RevokedSessionTokenIsRefused(users: map<UserId, SystemUser>, rows: seq<Session>, issued: map<SessionId, Token>,
                                     token: Token, sessionId: SessionId, refreshSecret: string, now: Time)
    requires SessionsValid(rows, issued)
    requires token.Signed? && token.payload.sessionId == Some(sessionId)
    ensures ResolveRefresh(users, Revoke(rows, sessionId), token, refreshSecret, now) == Failure(Unauthorized)
  {
    var r := Revoke(rows, sessionId);
    RevokeKeepsValid(rows, issued, sessionId);
    RevokeEffect(rows, sessionId);
    forall i | 0 <= i < |r| && Matches(r[i], token)
      ensures !IsActiveFor(r[i], token.payload.sub, now)
    {
      MatchingTokenNamesItsSession(r, issued, token, i);
    }
    RefreshRefusedExactly(users, r, token, refreshSecret, now);
  }

  /** After `logoutAll`, no refresh token of that user is accepted. */
  lemma LogoutAllRefusesEveryToken(users: map<UserId, SystemUser>, rows: seq<Session>, userId: UserId,
                                   token: Token, refreshSecret: string, now: Time)
    requires token.Signed? && token.payload.sub == userId
    ensures ResolveRefresh(users, RevokeAllFor(rows, userId), token, refreshSecret, now).Failure?
  {
    LogoutAllEffect(rows, userId, now);
  }

  // ---- the refresh decision with the library's 72-byte comparison ---------

  /**
   * The decision `refresh` makes when `bcrypt.compare` reads only the first
   * 72 bytes of the token: the same checks as `ResolveRefresh`, but the scan
   * accepts the first active session of the subject whose stored digest
   * passes that comparison.
   */
  function ResolveRefreshAsWritten(users: map<UserId, SystemUser>, rows: seq<Session>, token: Token,
                                   refreshSecret: string, now: Time): (r: Result<RefreshTarget, AuthError>)
    ensures r == Failure(BadRequest) <==> token == EmptyToken
    ensures r.Success? ==>
      && VerifyToken(token, refreshSecret, now).Some?
      && token.payload.sub in users
      && r.value.user == users[token.payload.sub]
      && r.value.user.isActive
      && r.value.session in rows
      && IsActiveFor(r.value.session, token.payload.sub, now)
      && MatchesAsWritten(r.value.session, token)
  {
    if token == EmptyToken then Failure(BadRequest)
    else match VerifyToken(token, refreshSecret, now)
      case None => Failure(Unauthorized)
      case Some(payload) =>
        if payload.sub !in users || !users[payload.sub].isActive then Failure(Unauthorized)
        else
          var candidates := ActiveFor(rows, payload.sub, now);
          FilterMembers(rows, ActiveTest(payload.sub, now));
          match FirstIndex(candidates, MatchAsWrittenTest(token))
          case None => Failure(Unauthorized)
          case Some(k) => Success(RefreshTarget(users[payload.sub], candidates[k]))
  }

  /**
   * With the 72-byte comparison, a verified token of an active user is
   * accepted as soon as one active session of that user passes it.
   */
  lemma AsWrittenAcceptsAnyPassingSession(users: map<UserId, SystemUser>, rows: seq<Session>, token: Token,
                                          refreshSecret: string, now: Time, j: nat)
    requires token != EmptyToken && VerifyToken(token, refreshSecret, now).Some?
    requires token.payload.sub in users && users[token.payload.sub].isActive
    requires j < |rows| && IsActiveFor(rows[j], token.payload.sub, now) && MatchesAsWritten(rows[j], token)
    ensures ResolveRefreshAsWritten(users, rows, token, refreshSecret, now).Success?
  {
    var sub := token.payload.sub;
    var a := ActiveFor(rows, sub, now);
    FilterMembers(rows, ActiveTest(sub, now));
    assert ActiveTest(sub, now)(rows[j]);
    assert rows[j] in a;
    var k :| 0 <= k < |a| && a[k] == rows[j];
    assert MatchAsWrittenTest(token)(a[k]);
  }

  /**
   * As written, a refresh token stays usable after rotation: a login at `t0`
   * issues `t`, a refresh rotates the session to `newToken`, and `t` is then
   * accepted again at any instant before its expiry. With the whole-token
   * comparison the model uses, `t` is refused once it has been replaced.
   */
  lemma ReplayedTokenRefreshesAsWritten(users: map<UserId, SystemUser>, rows: seq<Session>, issued: map<SessionId, Token>,
                                        u: SystemUser, freshId: SessionId, ipAddress: string, userAgent: string,
                                        t0: Time, later: Time, newToken: Token, t1: Time,
                                        ipAddress2: string, userAgent2: string, accessSecret: string, refreshSecret: string)
    requires SessionsValid(rows, issued) && !HasSessionId(rows, freshId)
    requires u.id in users && users[u.id].isActive
    requires later < t0 + RefreshTokenTtlMs
    requires newToken.Signed? && newToken.payload.sub == u.id && newToken.payload.sessionId == Some(freshId)
    ensures var t := GenerateTokens(u.id, u.email, u.role, Some(freshId), t0, accessSecret, refreshSecret).refreshToken;
      var rotated := Rotate(rows + [NewSession(freshId, u.id, Hash(t), ipAddress, userAgent, t0)],
                            freshId, Hash(newToken), t1, ipAddress2, userAgent2);
      && ResolveRefreshAsWritten(users, rotated, t, refreshSecret, later).Success?
      && (newToken != t ==> ResolveRefresh(users, rotated, t, refreshSecret, later) == Failure(Unauthorized))
  {
    var t := GenerateTokens(u.id, u.email, u.role, Some(freshId), t0, accessSecret, refreshSecret).refreshToken;
    var s := NewSession(freshId, u.id, Hash(t), ipAddress, userAgent, t0);
    var rows1 := rows + [s];
    var rotated := Rotate(rows1, freshId, Hash(newToken), t1, ipAddress2, userAgent2);
    AppendKeepsValid(rows, issued, s, t);
    RotateEffect(rows1, freshId, Hash(newToken), t1, ipAddress2, userAgent2);
    assert rows1[|rows|] == s;
    assert IsActiveFor(rotated[|rows|], u.id, later) && MatchesAsWritten(rotated[|rows|], t);
    AsWrittenAcceptsAnyPassingSession(users, rotated, t, refreshSecret, later, |rows|);
    if newToken != t {
      RefreshKeepsValid(rows1, issued[freshId := t], t, s, newToken, t1, ipAddress2, userAgent2);
      RetiredTokenIsRefused(users, rotated, t, refreshSecret, later);
    }
  }

  /**
   * As written, revoking a session does not stop its refresh token while the
   * same user has another active session: the token passes the 72-byte
   * comparison against that session, which is accepted in its place. With
   * the whole-token comparison the token is refused.
   */
  lemma RevokedTokenRefreshesAsWritten(users: map<UserId, SystemUser>, rows: seq<Session>, issued: map<SessionId, Token>,
                                       token: Token, sessionId: SessionId, j: nat, refreshSecret: string, now: Time)
    requires SessionsValid(rows, issued)
    requires token.Signed? && token.payload.sessionId == Some(sessionId)
    requires VerifyToken(token, refreshSecret, now).Some?
    requires token.payload.sub in users && users[token.payload.sub].isActive
    requires j < |rows| && rows[j].id != sessionId && IsActiveFor(rows[j], token.payload.sub, now)
    requires issued[rows[j].id].payload.sub == token.payload.sub
    ensures var r := Revoke(rows, sessionId);
      var w := ResolveRefreshAsWritten(users, r, token, refreshSecret, now);
      && w.Success? && w.value.session.id != sessionId
      && ResolveRefresh(users, r, token, refreshSecret, now) == Failure(Unauthorized)
  {
    var r := Revoke(rows, sessionId);
    RevokeEffect(rows, sessionId);
    assert r[j] == rows[j];
    assert MatchesAsWritten(r[j], token);
    AsWrittenAcceptsAnyPassingSession(users, r, token, refreshSecret, now, j);
    var w := ResolveRefreshAsWritten(users, r, token, refreshSecret, now);
    var i :| 0 <= i < |r| && r[i] == w.value.session;
    RevokedSessionTokenIsRefused(users, rows, issued, token, sessionId, refreshSecret, now);
  }

  /**
   * Rotating the session a presented token matched to a new token naming it
   * keeps the session table valid, and retires the presented token.
   */
  lemma RefreshKeepsValid(rows: seq<Session>, issued: map<SessionId, Token>, presented: Token, s: Session,
                          newToken: Token, now: Time, ipAddress: string, userAgent: string)
    requires SessionsValid(rows, issued) && s in rows && Matches(s, presented)
    requires newToken.Signed? && newToken.payload.sessionId == Some(s.id)
    ensures SessionsValid(Rotate(rows, s.id, Hash(newToken), now, ipAddress, userAgent), issued[s.id := newToken])
    ensures newToken != presented ==>
      var r := Rotate(rows, s.id, Hash(newToken), now, ipAddress, userAgent);
      forall i :: 0 <= i < |r| ==> !Matches(r[i], presented)
  {
    var k :| 0 <= k < |rows| && rows[k] == s;
    MatchingTokenNamesItsSession(rows, issued, presented, k);
    RotateKeepsValid(rows, issued, s.id, newToken, now, ipAddress, userAgent);
    if newToken != presented {
      RotateRetiresOldToken(rows, issued, s.id, presented, newToken, now, ipAddress, userAgent);
    }
  }

  class AuthService {
    const store: CredentialStore
    const accessSecret: string
    const refreshSecret: string

    constructor (store: CredentialStore, accessSecret: string, refreshSecret: string)
      ensures this.store == store && this.accessSecret == accessSecret && this.refreshSecret == refreshSecret
    {
      this.store := store;
      this.accessSecret := accessSecret;
      this.refreshSecret := refreshSecret;
    }

    /** `loginAttemptService.createLoginAttempt`: one record appended; the insert never fails here. */
    method CreateLoginAttempt(a: LoginAttempt)
      modifies store`attempts
      ensures store.attempts == old(store.attempts) + [a]
    {
      store.attempts := store.attempts + [a];
    }

    /**
     * `createSession`: stores the digest of the refresh token, never the
     * token, with a 7-day expiry.
     */
    method CreateSession(userId: UserId, refreshToken: Token, ipAddress: string, userAgent: string,
                         now: Time, sessionId: SessionId) returns (session: Session)
      requires store.Valid() && !HasSessionId(store.sessions, sessionId)
      requires refreshToken.Signed? && refreshToken.payload.sessionId == Some(sessionId)
      modifies store
      ensures store.Valid()
      ensures session == NewSession(sessionId, userId, Hash(refreshToken), ipAddress, userAgent, now)
      ensures store.sessions == old(store.sessions) + [session]
      ensures store.users == old(store.users) && store.attempts == old(store.attempts)
    {
      var hashedRefreshToken := Hash(refreshToken);
      session := NewSession(sessionId, userId, hashedRefreshToken, ipAddress, userAgent, now);
      AppendKeepsValid(store.sessions, store.issued, session, refreshToken);
      store.sessions := store.sessions + [session];
      store.issued := store.issued[sessionId := refreshToken];
    }

    /**
     * `handleFailedLogin`: the counter becomes the count read in `user` plus
     * one, written over the current row together with the failure time, and
     * the lock fields once the threshold is reached.
     */
    method HandleFailedLogin(user: SystemUser, ipAddress: string, userAgent: string, now: Time)
      requires store.Valid() && user.id in store.users && store.users[user.id].email == user.email
      modifies store
      ensures store.Valid()
      ensures store.users == old(store.users)[user.id := RecordFailure(old(store.users)[user.id], user.failedLoginAttempts + 1, now)]
      ensures store.sessions == old(store.sessions)
      ensures store.attempts == old(store.attempts)
        + [LoginAttempt(user.email, ipAddress, userAgent, false, Some(user.id), Some(InvalidPassword(user.failedLoginAttempts + 1)), now)]
    {
      var attempts := user.failedLoginAttempts + 1;
      var updateData := store.users[user.id].(failedLoginAttempts := attempts, lastFailedAttempt := Some(now));
      if attempts >= MaxFailedAttempts {
        var lockedUntil := now + LockoutDurationMs;
        updateData := updateData.(isLocked := true, lockedUntil := Some(lockedUntil));
      }
      ReplaceUserKeepsValid(store.users, user.id, updateData);
      store.SetUsers(store.users[user.id := updateData]);
      CreateLoginAttempt(LoginAttempt(user.email, ipAddress, userAgent, false, Some(user.id), Some(InvalidPassword(attempts)), now));
    }

    /**
     * `login`. An unknown email is recorded and refused. For a known email
     * the user row ends as `LoginStep` says, one attempt is recorded, and on
     * success one fresh session is added whose id is carried in both tokens.
     */
    method Login(email: string, password: string, ipAddress: string, userAgent: string,
                 now: Time, freshId: SessionId) returns (r: Result<AuthResponse, AuthError>)
      requires store.Valid()
      requires !HasSessionId(store.sessions, freshId)
      modifies store
      ensures store.Valid()
      ensures !HasEmail(old(store.users), email) ==>
        && r == Failure(InvalidCredentials)
        && store.users == old(store.users)
        && store.sessions == old(store.sessions)
        && store.attempts == old(store.attempts) + [LoginAttempt(email, ipAddress, userAgent, false, None, Some(UserNotFound), now)]
      ensures forall id :: id in old(store.users) && old(store.users)[id].email == email ==>
        var u := old(store.users)[id];
        var step := LoginStep(u, VerifyHash(password, u.password), now);
        && store.users == old(store.users)[id := step.user]
        && store.attempts == old(store.attempts) + [AttemptFor(email, ipAddress, userAgent, id, step.outcome, now)]
        && (step.outcome.Succeeded? ==>
              var tokens := GenerateTokens(u.id, u.email, u.role, Some(freshId), now, accessSecret, refreshSecret);
              && r == Success(AuthResponse(tokens, Summary(u), SessionRef(freshId, now + SessionLifetimeMs)))
              && store.sessions == old(store.sessions)
                   + [NewSession(freshId, u.id, Hash(tokens.refreshToken), ipAddress, userAgent, now)])
        && (!step.outcome.Succeeded? ==>
              r == Failure(ErrorFor(step.outcome)) && store.sessions == old(store.sessions))
      ensures r.Success? ==>
        && r.value.tokens.accessToken.Signed? && r.value.tokens.refreshToken.Signed?
        && r.value.tokens.accessToken.payload.sessionId == Some(r.value.session.id)
        && r.value.tokens.refreshToken.payload.sessionId == Some(r.value.session.id)
    {
      var found := store.FindUserByEmail(email);
      if found.None? {
        CreateLoginAttempt(LoginAttempt(email, ipAddress, userAgent, false, None, Some(UserNotFound), now));
        return Failure(InvalidCredentials);
      }
      var user := found.value;
      assert forall id :: id in store.users && store.users[id].email == email ==> id == user.id;
      r := LoginKnownUser(user, password, ipAddress, userAgent, now, freshId);
    }

    /**
     * The part of `login` after the user was found by email: the row ends as
     * `LoginStep` says, one attempt is recorded, and on success one fresh
     * session is added.
     */
    method LoginKnownUser(user: SystemUser, password: string, ipAddress: string, userAgent: string,
                          now: Time, freshId: SessionId) returns (r: Result<AuthResponse, AuthError>)
      requires store.Valid()
      requires !HasSessionId(store.sessions, freshId)
      requires user.id in store.users && store.users[user.id] == user
      modifies store
      ensures store.Valid()
      ensures var step := LoginStep(user, VerifyHash(password, user.password), now);
        && store.users == old(store.users)[user.id := step.user]
        && store.attempts == old(store.attempts) + [AttemptFor(user.email, ipAddress, userAgent, user.id, step.outcome, now)]
        && (step.outcome.Succeeded? ==>
              var tokens := GenerateTokens(user.id, user.email, user.role, Some(freshId), now, accessSecret, refreshSecret);
              && r == Success(AuthResponse(tokens, Summary(user), SessionRef(freshId, now + SessionLifetimeMs)))
              && store.sessions == old(store.sessions)
                   + [NewSession(freshId, user.id, Hash(tokens.refreshToken), ipAddress, userAgent, now)])
        && (!step.outcome.Succeeded? ==>
              r == Failure(ErrorFor(step.outcome)) && store.sessions == old(store.sessions))
    {
      ghost var step := LoginStep(user, VerifyHash(password, user.password), now);

      if IsLocked(user, now) {
        assert step == LoginStepResult(LockedOut(MinutesUntilUnlock(user.lockedUntil.value, now)), user);
        CreateLoginAttempt(LoginAttempt(user.email, ipAddress, userAgent, false, Some(user.id), Some(AccountLocked), now));
        return Failure(Locked(MinutesUntilUnlock(user.lockedUntil.value, now)));
      }

      // Lazy unlock of a lapsed lock; `user` keeps the values read above.
      if LockLapsed(user, now) {
        ReplaceUserKeepsValid(store.users, user.id, ClearLock(store.users[user.id]));
        store.SetUsers(store.users[user.id := ClearLock(store.users[user.id])]);
      }

      if !user.isActive {
        assert step == LoginStepResult(Inactive, store.users[user.id]);
        CreateLoginAttempt(LoginAttempt(user.email, ipAddress, userAgent, false, Some(user.id), Some(UserInactive), now));
        return Failure(InvalidCredentials);
      }

      var isPasswordValid := VerifyHash(password, user.password);
      if !isPasswordValid {
        assert step == LoginStepResult(BadPassword(user.failedLoginAttempts + 1),
                                       RecordFailure(store.users[user.id], user.failedLoginAttempts + 1, now));
        HandleFailedLogin(user, ipAddress, userAgent, now);
        return Failure(InvalidCredentials);
      }

      assert step == LoginStepResult(Succeeded, RecordSuccess(store.users[user.id], now));
      ReplaceUserKeepsValid(store.users, user.id, RecordSuccess(store.users[user.id], now));
      store.SetUsers(store.users[user.id := RecordSuccess(store.users[user.id], now)]);

      var tokens := GenerateTokens(user.id, user.email, user.role, Some(freshId), now, accessSecret, refreshSecret);
      var session := CreateSession(user.id, tokens.refreshToken, ipAddress, userAgent, now, freshId);
      CreateLoginAttempt(LoginAttempt(user.email, ipAddress, userAgent, true, Some(user.id), None, now));
      r := Success(AuthResponse(tokens, Summary(user), SessionRef(session.id, session.expiresAt)));
    }

    /**
     * `refresh`. The outcome is decided by `ResolveRefresh`; on success the
     * matched session is rotated to the digest of the new refresh token, and
     * if that token differs from the presented one, the presented one no
     * longer matches any session.
     */
    method Refresh(refreshToken: Token, ipAddress: string, userAgent: string, now: Time)
      returns (r: Result<AuthTokens, AuthError>)
      requires store.Valid()
      modifies store
      ensures store.Valid()
      ensures store.users == old(store.users) && store.attempts == old(store.attempts)
      ensures match ResolveRefresh(old(store.users), old(store.sessions), refreshToken, refreshSecret, now)
        case Failure(e) => r == Failure(e) && store.sessions == old(store.sessions)
        case Success(target) =>
          var tokens := GenerateTokens(target.user.id, target.user.email, target.user.role,
                                       Some(target.session.id), now, accessSecret, refreshSecret);
          && r == Success(tokens)
          && store.sessions == Rotate(old(store.sessions), target.session.id, Hash(tokens.refreshToken), now, ipAddress, userAgent)
      ensures r.Success? && r.value.refreshToken != refreshToken ==>
        forall i :: 0 <= i < |store.sessions| ==> !Matches(store.sessions[i], refreshToken)
    {
      ghost var expected := ResolveRefresh(store.users, store.sessions, refreshToken, refreshSecret, now);
      if refreshToken == EmptyToken {
        return Failure(BadRequest);
      }
      var payload := VerifyToken(refreshToken, refreshSecret, now);
      if payload.None? {
        return Failure(Unauthorized);
      }
      var userId := payload.value.sub;
      if userId !in store.users || !store.users[userId].isActive {
        return Failure(Unauthorized);
      }
      var user := store.users[userId];
      var sessions := ActiveFor(store.sessions, userId, now);
      var validSession := FindMatchingSession(sessions, refreshToken);
      if validSession.None? {
        assert expected == Failure(Unauthorized);
        return Failure(Unauthorized);
      }
      var s := validSession.value;
      assert expected == Success(RefreshTarget(user, s));

      var tokens := GenerateTokens(user.id, user.email, user.role, Some(s.id), now, accessSecret, refreshSecret);
      var hashedRefreshToken := Hash(tokens.refreshToken);
      RefreshKeepsValid(store.sessions, store.issued, refreshToken, s, tokens.refreshToken, now, ipAddress, userAgent);
      store.sessions := Rotate(store.sessions, s.id, hashedRefreshToken, now, ipAddress, userAgent);
      store.issued := store.issued[s.id := tokens.refreshToken];
      r := Success(tokens);
    }

    /**
     * `logout`: revokes the named session whoever owns it (`userId` is not
     * consulted); without a session id nothing happens, and a missing row is
     * silently ignored.
     */
    method Logout(userId: UserId, sessionId: Option<SessionId>)
      requires store.Valid()
      modifies store
      ensures store.Valid()
      ensures store.users == old(store.users) && store.attempts == old(store.attempts)
      ensures store.sessions ==
        if sessionId.Some? && sessionId.value != "" then Revoke(old(store.sessions), sessionId.value)
        else old(store.sessions)
    {
      if sessionId.Some? && sessionId.value != "" {
        RevokeKeepsValid(store.sessions, store.issued, sessionId.value);
        store.sessions := Revoke(store.sessions, sessionId.value);
      }
    }

    /** `logoutSession`: like `logout`, but a missing session or one of another user is refused. */
    method LogoutSession(userId: UserId, sessionId: SessionId) returns (r: Result<(), AuthError>)
      requires store.Valid()
      modifies store
      ensures store.Valid()
      ensures store.users == old(store.users) && store.attempts == old(store.attempts)
      ensures var found := SessionById(old(store.sessions), sessionId);
        if found.None? || found.value.userId != userId then
          r == Failure(Unauthorized) && store.sessions == old(store.sessions)
        else
          r == Success(()) && store.sessions == Revoke(old(store.sessions), sessionId)
    {
      var session := SessionById(store.sessions, sessionId);
      if session.None? || session.value.userId != userId {
        return Failure(Unauthorized);
      }
      RevokeKeepsValid(store.sessions, store.issued, sessionId);
      store.sessions := Revoke(store.sessions, sessionId);
      r := Success(());
    }

    /** `logoutAll`: revokes every unrevoked session of the user. */
    method LogoutAll(userId: UserId)
      requires store.Valid()
      modifies store
      ensures store.Valid()
      ensures store.users == old(store.users) && store.attempts == old(store.attempts)
      ensures store.sessions == RevokeAllFor(old(store.sessions), userId)
    {
      RevokeAllKeepsValid(store.sessions, store.issued, userId);
      store.sessions := RevokeAllFor(store.sessions, userId);
    }

    /** `getMySessions`. */
    method GetMySessions(userId: UserId, now: Time) returns (r: seq<SessionView>)
      ensures r == MySessions(store.sessions, userId, now)
    {
      r := MySessions(store.sessions, userId, now);
    }

    /** `cleanupExpiredSessions`. */
    method CleanupExpiredSessions(now: Time)
      requires store.Valid()
      modifies store
      ensures store.Valid()
      ensures store.users == old(store.users) && store.attempts == old(store.attempts)
      ensures store.sessions == Sweep(old(store.sessions), now)
    {
      SweepKeepsValid(store.sessions, store.issued, now);
      store.sessions := Sweep(store.sessions, now);
    }
  }
}
