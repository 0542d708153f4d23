/**
 * The rows of the credential store: administrative users, sessions and
 * login attempts, with the columns the services read and write.
 */
module Records {
  import opened Base
  import opened Crypto

  /** A row of the system-user table. `password` holds a digest, never the plaintext. */
  datatype SystemUser = SystemUser(
    id: UserId,
    email: string,
    password: Digest<string>,
    firstName: string,
    lastName: string,
    role: string,
    isActive: bool,
    failedLoginAttempts: nat,
    isLocked: bool,
    lockedUntil: Option<Time>,
    lastLogin: Option<Time>,
    lastFailedAttempt: Option<Time>,
    createdAt: Time)

  /**
   * A row of the session table. The `refreshToken` column holds the digest
   * of the refresh token issued for the session, not the token itself.
   */
  datatype Session = Session(
    id: SessionId,
    userId: UserId,
    refreshToken: Digest<Token>,
    ipAddress: string,
    userAgent: string,
    createdAt: Time,
    lastActivityAt: Time,
    expiresAt: Time,
    isRevoked: bool,
    deviceFingerprint: Option<string>)

  /** The columns `getMySessions` selects: everything but the user and the refresh digest. */
  datatype SessionView = SessionView(
    id: SessionId,
    ipAddress: string,
    userAgent: string,
    createdAt: Time,
    lastActivityAt: Time,
    deviceFingerprint: Option<string>)

  /** Why a login attempt failed, as recorded in the audit log. */
  datatype FailureReason =
    | UserNotFound
    | AccountLocked
    | UserInactive
    | InvalidPassword(attempt: nat)

  /** An append-only audit record of one login attempt. */
  datatype LoginAttempt = LoginAttempt(
    email: string,
    ipAddress: string,
    userAgent: string,
    success: bool,
    userId: Option<UserId>,
    failureReason: Option<FailureReason>,
    createdAt: Time)
}
