/**
 * The check run on every request that carries an access token, after the
 * token's signature and expiry have been verified: the subject must still
 * exist and be active, and the request is then attributed to the stored
 * identity.
 */
module JwtStrategy {
  import opened Base
  import opened Crypto
  import opened Records
  import opened Store
  import opened Auth

  /** What a guarded handler sees as the current user. */
  datatype AuthUser = AuthUser(userId: UserId, email: string, role: string, sessionId: Option<SessionId>)

  /** Both are answered with 401; they differ only in the message. */
  datatype Rejection = NoSuchUser | InactiveUser

  /** `JwtStrategy.validate`: look the subject up by id, refuse a missing or inactive user. */
  function Validate(users: map<UserId, SystemUser>, payload: Payload): (r: Result<AuthUser, Rejection>)
    ensures r == Failure(NoSuchUser) <==> payload.sub !in users
    ensures r == Failure(InactiveUser) <==> payload.sub in users && !users[payload.sub].isActive
    ensures r.Success? ==>
      && payload.sub in users && users[payload.sub].isActive
      && r.value.userId == users[payload.sub].id
      && r.value.email == users[payload.sub].email
      && r.value.role == users[payload.sub].role
      && r.value.sessionId == payload.sessionId
  {
    if payload.sub !in users then Failure(NoSuchUser)
    else
      var user := users[payload.sub];
      if !user.isActive then Failure(InactiveUser)
      else Success(AuthUser(user.id, user.email, user.role, payload.sessionId))
  }

  /**
   * The identity comes from the table, not from the token: a payload whose
   * email or role is stale is still attributed to the stored email and role.
   */
  lemma IdentityComesFromTheTable(users: map<UserId, SystemUser>, p: Payload, q: Payload)
    requires p.sub == q.sub && p.sessionId == q.sessionId
    ensures Validate(users, p) == Validate(users, q)
  {
  }

  /**
   * The access token issued to an active user for a session authenticates
   * requests as that user and that session for its first 15 minutes, is
   * refused from then on, and carries no weight once the user has been
   * deactivated.
   */
  lemma IssuedAccessTokenAuthenticates(users: map<UserId, SystemUser>, id: UserId, sessionId: SessionId,
                                       issuedAt: Time, at: Time, accessSecret: string, refreshSecret: string)
    requires UsersValid(users) && id in users
    ensures var u := users[id];
      var t := GenerateTokens(u.id, u.email, u.role, Some(sessionId), issuedAt, accessSecret, refreshSecret).accessToken;
      var v := VerifyToken(t, accessSecret, at);
      && (v.Some? <==> at < issuedAt + AccessTokenTtlMs)
      && (v.Some? && u.isActive ==> Validate(users, v.value) == Success(AuthUser(id, u.email, u.role, Some(sessionId))))
      && (v.Some? && !u.isActive ==> Validate(users, v.value) == Failure(InactiveUser))
  {
  }
}
