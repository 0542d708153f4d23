# Credential and session core of the VPN administration backend

This project models the authentication core of the NestJS backend that
administers a VPN's users, and proves properties of that model in Dafny.
It covers:

- **System users.** Administrators and operators live in a table keyed by id,
  with a unique email.
- **Login with lockout.** Logging in checks the bcrypt password digest and
  applies a brute-force lockout: five consecutive wrong passwords lock the
  account for 30 minutes. A lapsed lock is lifted lazily on the next
  attempt.
- **Tokens and sessions.** Every successful login issues two JWTs over one
  payload: a 15-minute access token and a 7-day refresh token. It opens a
  session row, which stores only the digest of the refresh token.
- **Refresh.** Refreshing verifies the refresh token and finds the first active
  session of its subject whose digest matches. It then rotates that row to
  the digest of a newly minted refresh token.
- **Logout and housekeeping.** Logging out revokes one session, one session
  the caller owns, or all of the caller's sessions. The session listing and
  the expiry sweep complete the service.
- **Request-side checks.** The model also covers the check run on every
  authenticated request (the subject must still exist and be active), the
  password-strength rule, and how the client address is taken from
  `X-Forwarded-For`.
- **Administration.** The administration service creates, lists, reads and
  updates system users, changes their password and soft-deletes them.
  Every record it returns leaves out the `password` column.

The database is a `CredentialStore` object with three parts:

- the user table, a `map` from id to row;
- the session table, a `seq` of rows in table order;
- the append-only login-attempt log, a `seq`.

Each service method is one atomic step on this object. The store keeps
one invariant, `Valid`:

- ids and emails are unique;
- every session row stores the digest of the refresh token last issued for
  it, and that token names the session.

Every state-changing method is proved to preserve it.

Conventions of the model:

- **Time.** An integer number of milliseconds, passed explicitly as `now`.
- **Fresh ids.** The uuid a call would draw is a parameter, `freshId`.
- **bcrypt.** An injective digest, so `bcrypt.compare` is digest equality of
  the whole input. The library itself reads only the first 72 bytes of its
  input. That comparison is modelled separately, and "## Findings" shows what
  it changes.
- **JWTs.** A signed token is its payload, its secret and its expiry instant.
  Any other string is `Text`, and the empty string is `EmptyToken`.

The login method is proved to leave exactly the state given by the pure
function `Lockout.LoginStep`, and the lockout lemmas are stated about that
function. One consequence of the code as written, which the lemmas make
explicit:

- The lazy unlock resets the stored counter to zero.
- The failure that follows in the same call still counts from the value
  read before the reset.
- So a user whose lock has lapsed with four or more failures on record is
  locked again by a single wrong password.

The model follows the code here, and `Lockout.LapsedLockRelocksWithStaleCounter`
states the behaviour. Likewise, the attempt that reaches the threshold
locks the account but is still answered as a plain bad password. Only the
next attempt reports the lock.

The project is a set of modules:

| module | holds |
|---|---|
| `Base` | identifiers, time, `Option`, `Result` |
| `Crypto` | hashing and signed tokens |
| `Records` | the table rows |
| `Ordering` | generic filtering, first-index and ordered-insertion lemmas |
| `Sessions` | the session-table queries and writes, and their invariant |
| `Store` | the shared store object |
| `Lockout` | the lockout policy and `LoginStep` |
| `Auth` | `AuthService` and the refresh decision `ResolveRefresh` |
| `JwtStrategy` | the per-request check |
| `PasswordValidator` | the password-strength rule |
| `IpAddress` | the client-address extraction |
| `SystemUsers` | `SystemUsersService` and the table functions behind it |

## Model

| member | source | states |
|---|---|---|
| Crypto.Sign | src/auth/auth.service.ts:349-358 | a signed token carries exactly the given payload and is never the empty token |
| Crypto.VerifyToken | src/auth/auth.service.ts:204-210 | a token verifies exactly when it was signed with this secret and its expiry lies after now, and then yields its payload; a wrong secret, an elapsed expiry and an unsigned string all fail the same way |
| Crypto.SignVerifyRoundTrip | src/auth/auth.service.ts:349-358 | a token verifies under its own secret, with its payload, exactly until its expiry |
| Crypto.VerifyRejectsOtherKey | src/auth/auth.service.ts:350-356 | a token signed with one secret never verifies under another |
| Crypto.Truncate72 | src/auth/auth.service.ts:103-106 | the part of a string bcrypt reads: exactly its first 72 characters, or the whole string when it is no longer |
| Crypto.LongPasswordsCollide | src/auth/auth.service.ts:103-106 | with the library's comparison a password of 72 or more characters followed by anything verifies against the digest of the password alone, which the whole-input comparison refuses |
| Crypto.SameSubjectTokensCollide | src/auth/auth.service.ts:233 | with the library's comparison any two signed tokens of one subject pass against each other's digest; the whole-token comparison accepts only the token itself |
| Lockout.MinutesUntilUnlock | src/auth/auth.service.ts:192-196 | the rounded-up number of whole minutes to the unlock instant: m-1 minutes fall short and m minutes reach it, and it is at least 1 while the lock runs |
| Lockout.IsLocked | src/auth/auth.service.ts:69 | a lock is in force when the flag is set and an expiry lies strictly after now |
| Lockout.LockLapsed | src/auth/auth.service.ts:84 | the flag is set and the expiry has been reached |
| Lockout.ClearLock | src/auth/auth.service.ts:85-88 | the lazy unlock: identity kept, counter zero, no lock in force or lapsed at any instant, login and failure times kept |
| Lockout.RecordFailure | src/auth/auth.service.ts:161-180 | identity and login time kept, counter set to the given count, failure time stamped; from 5 the account is locked until 30 minutes later, below 5 the lock fields are kept |
| Lockout.RecordSuccess | src/auth/auth.service.ts:114-122 | identity kept, counter zero, login time stamped, no lock at any instant, failure time kept |
| Lockout.LoginStep | src/auth/auth.service.ts:69-122 | one attempt never changes the identity fields; it reports a lock exactly when the lock is in force, and succeeds exactly when not locked, active and the password matches |
| Lockout.LockedAttemptChangesNothing | src/auth/auth.service.ts:69-81 | while a lock is in force the stored row is not written, the password is irrelevant, and the reported minutes bound the time to unlock |
| Lockout.WrongPasswordCounts | src/auth/auth.service.ts:160-175 | a wrong password on an active, unlocked account raises the counter read by one and stamps the failure time; from 5 on the account is locked until 30 minutes later, below 5 the lock fields do not change; the outcome is still a bad password |
| Lockout.LapsedLockRelocksWithStaleCounter | src/auth/auth.service.ts:83-111 | after a lapsed lock, the failure update counts from the counter read before the lazy reset, so 4 or more prior failures lock the account again at once |
| Lockout.LapsedLockIsCleared | src/auth/auth.service.ts:83-89 | a lapsed lock never refuses the attempt; a correct password on an active account succeeds; an inactive account ends with the lock cleared |
| Lockout.InactiveAttemptKeepsCounter | src/auth/auth.service.ts:91-101 | an inactive account is refused whatever the password, and the failure counter and failure time are not raised |
| Lockout.SuccessResets | src/auth/auth.service.ts:113-122 | a correct password on an active, unlocked account clears the counter and the lock and stamps the login time, and nothing else |
| Lockout.FiveConsecutiveFailures | src/auth/auth.service.ts:160-175 | five wrong passwords on a clean account are each reported as bad passwords 1 to 5, the fifth locks for 30 minutes, and a sixth attempt in that window is refused as locked whatever its password, reporting 30 minutes at the same instant |
| Sessions.IsActiveFor | src/auth/auth.service.ts:224-228 | a row is selected when it belongs to the user, is unrevoked and expires strictly after now |
| Sessions.ActiveFor | src/auth/auth.service.ts:223-229 | the selected rows of the user in table order; their membership is stated by Ordering.FilterMembers |
| Sessions.Matches | src/auth/auth.service.ts:233 | the token compared with the row's stored digest on the whole token |
| Sessions.MatchesAsWritten | src/auth/auth.service.ts:233 | the same comparison on the first 72 bytes, as the library performs it |
| Sessions.FirstMatch | src/auth/auth.service.ts:231-238 | none exactly when no candidate matches the token; otherwise a matching candidate with no matching candidate before it |
| Sessions.FindMatchingSession | src/auth/auth.service.ts:231-238 | the scan-and-break loop returns exactly the first matching candidate |
| Sessions.RefreshPicksFirstActiveMatch | src/auth/auth.service.ts:223-238 | scanning the active sessions of the user yields the first row of the whole table that is both active for the user and matching |
| Sessions.SessionById | src/auth/auth.service.ts:290-292 | none exactly when no row has the id; otherwise a row of the table with that id |
| Sessions.NewSession | src/auth/auth.service.ts:261-276 | the new row holds the given id, owner and digest, is unrevoked, expires 7 days after creation and is active for its owner |
| Sessions.Revoke | src/auth/auth.service.ts:298-301 | same length, and each row keeps its id, owner and digest; the full effect is Sessions.RevokeEffect |
| Sessions.RevokeAllFor | src/auth/auth.service.ts:305-311 | same length, and each row keeps its id, owner and digest; the full effect is Sessions.LogoutAllEffect |
| Sessions.Rotate | src/auth/auth.service.ts:248-256 | same length, and each row keeps its id, owner, expiry and revocation flag; the full effect is Sessions.RotateEffect |
| Sessions.Sweep | src/auth/auth.service.ts:334-338 | never longer than the table; the full effect is Sessions.SweepEffect |
| Sessions.View | src/auth/auth.service.ts:321-328 | the listed entry keeps the session's id and activity time |
| Sessions.MySessions | src/auth/auth.service.ts:314-331 | ordered by last activity, most recent first, and a permutation of the projected active sessions of the user |
| Sessions.MySessionsAreTheActiveOnes | src/auth/auth.service.ts:314-331 | an entry is listed exactly when it is the projection of an unrevoked, unexpired session of the user |
| Sessions.LogoutAllEffect | src/auth/auth.service.ts:304-312 | afterwards the user has no active session, each of their rows is revoked, every other row and every other user's active sessions are unchanged |
| Sessions.RevokeEffect | src/auth/auth.service.ts:298-301 | rows with the id become revoked, every other row is unchanged, and revoking twice equals revoking once |
| Sessions.RevokeMissingIsNoop | src/auth/auth.service.ts:278-287 | revoking an id that is not in the table leaves the table as it was |
| Sessions.RotateEffect | src/auth/auth.service.ts:248-256 | rotation rewrites only the digest, activity time, address and user agent of the rotated row; every other column and every other row stays |
| Sessions.SweepEffect | src/auth/auth.service.ts:333-339 | exactly the rows that expired strictly before now are deleted, and the active sessions of every user are unchanged |
| Sessions.MatchingTokenNamesItsSession | src/auth/auth.service.ts:261-275 | on a valid table a token matching a row is the token issued for it and names that row's session |
| Sessions.AtMostOneMatch | src/auth/auth.service.ts:231-238 | on a valid table a token matches at most one row |
| Sessions.AppendKeepsValid | src/auth/auth.service.ts:266-275 | inserting a session under a fresh id with the digest of a token naming it keeps the table valid |
| Sessions.RevokeKeepsValid | src/auth/auth.service.ts:280-282 | revocation keeps the table valid |
| Sessions.RevokeAllKeepsValid | src/auth/auth.service.ts:305-311 | revoking all of a user's sessions keeps the table valid |
| Sessions.SweepKeepsValid | src/auth/auth.service.ts:334-338 | deleting expired rows keeps the table valid |
| Sessions.RotateKeepsValid | src/auth/auth.service.ts:245-256 | rotating a row to the digest of a new token naming it keeps the table valid |
| Sessions.RotateRetiresOldToken | src/auth/auth.service.ts:244-256 | after rotation to a different token the old token matches no row |
| Store.CredentialStore.SetUsers | src/auth/auth.service.ts:114-122 | every write of the user table, here the update of one row by id, keeps the store valid and leaves exactly the new table |
| Store.CredentialStore.FindUserByEmail | src/auth/auth.service.ts:53-55 | none exactly when no user has the email; otherwise the stored row with that email |
| Auth.GenerateTokens | src/auth/auth.service.ts:341-364 | both tokens carry the payload; the access token verifies under the access secret exactly for 15 minutes and the refresh token under the refresh secret exactly for 7 days; with distinct secrets neither verifies under the other's secret |
| Auth.TokensOfDifferentInstantsDiffer | src/auth/auth.service.ts:341-364 | refresh tokens minted at different instants differ |
| Auth.HashPassword | src/auth/auth.service.ts:367-369 | the digest verifies against the password and against no other string |
| Auth.Summary | src/auth/auth.service.ts:146-152 | the user part of the login response: id, email, names and role of the row read |
| Auth.ErrorFor | src/auth/auth.service.ts:66-110 | a lock is reported with its minutes; every other refusal is the same invalid-credentials error |
| Auth.AttemptFor | src/auth/auth.service.ts:69-142 | the audit record carries the email and user, is a success exactly when the attempt succeeded, has a reason exactly when it failed, and records the attempt number for a wrong password |
| Auth.ResolveRefresh | src/auth/auth.service.ts:198-242 | bad request exactly for the empty token; every other refusal is unauthorized; success only with a verified token whose subject is an active user and a session of the table that is active for that user and matches the token |
| Auth.RefreshRefusedExactly | src/auth/auth.service.ts:198-242 | a non-empty token is refused exactly when it does not verify, its subject is missing or inactive, or no active session of the subject matches it |
| Auth.LoginTokenRefreshes | src/auth/auth.service.ts:124-134 | the refresh token issued by a login is accepted at any instant before its expiry while the user is active, and selects the session the login created |
| Auth.RetiredTokenIsRefused | src/auth/auth.service.ts:231-241 | a token matching no row is refused as unauthorized |
| Auth.RevokedSessionTokenIsRefused | src/auth/auth.service.ts:278-287 | after a session is revoked, every token naming it is refused on a valid table |
| Auth.LogoutAllRefusesEveryToken | src/auth/auth.service.ts:304-312 | after all sessions of a user are revoked, no token of that user is accepted |
| Auth.ResolveRefreshAsWritten | src/auth/auth.service.ts:198-242 | the refresh decision with the library's 72-byte comparison: bad request exactly for the empty token; success only with a verified token of an active user and an active session of that user passing that comparison |
| Auth.AsWrittenAcceptsAnyPassingSession | src/auth/auth.service.ts:231-238 | with that comparison a verified token of an active user is accepted as soon as any active session of the user passes it |
| Auth.ReplayedTokenRefreshesAsWritten | src/auth/auth.service.ts:244-256 | with that comparison a login's refresh token is accepted again after the session was rotated to another token of the user; with the whole-token comparison it is refused |
| Auth.RevokedTokenRefreshesAsWritten | src/auth/auth.service.ts:289-302 | with that comparison a revoked session's token is accepted while the user has another active session, which it selects; with the whole-token comparison it is refused |
| Auth.RefreshKeepsValid | src/auth/auth.service.ts:244-256 | rotating the matched session keeps the table valid and, for a different new token, retires the presented one |
| Auth.AuthService.CreateLoginAttempt | src/auth/login-attempt.service.ts:11-34 | exactly one audit record is appended |
| Auth.AuthService.CreateSession | src/auth/auth.service.ts:261-276 | exactly one row is appended, storing the refresh-token digest with a 7-day expiry; users and audit log unchanged; store stays valid |
| Auth.AuthService.HandleFailedLogin | src/auth/auth.service.ts:160-190 | the current row gets the counter read plus one, the failure time and, from the threshold, the lock; one audit record with the attempt number is appended |
| Auth.AuthService.Login | src/auth/auth.service.ts:48-158 | an unknown email is recorded and refused with nothing else changed; for a known email the row ends as LoginStep says, one attempt is recorded, a failure leaves the session table alone, and a success returns the tokens, the user summary and one new session whose id both tokens carry |
| Auth.AuthService.LoginKnownUser | src/auth/auth.service.ts:69-157 | the row ends as LoginStep says, the matching audit record is appended and, on success, exactly one new session is added |
| Auth.AuthService.Refresh | src/auth/auth.service.ts:198-259 | the result is decided by ResolveRefresh; on success the matched row is rotated to the new token's digest, users and audit log are unchanged, and a replaced token matches no row |
| Auth.AuthService.Logout | src/auth/auth.service.ts:278-287 | with a non-empty session id that session is revoked whoever owns it; otherwise nothing changes |
| Auth.AuthService.LogoutSession | src/auth/auth.service.ts:289-302 | a missing session or one owned by another user is refused with nothing changed; otherwise that session is revoked |
| Auth.AuthService.LogoutAll | src/auth/auth.service.ts:304-312 | every unrevoked session of the user is revoked and nothing else changes |
| Auth.AuthService.GetMySessions | src/auth/auth.service.ts:314-331 | the listing is MySessions of the current table |
| Auth.AuthService.CleanupExpiredSessions | src/auth/auth.service.ts:333-339 | the session table becomes its sweep; users and audit log unchanged; store stays valid |
| JwtStrategy.Validate | src/auth/strategies/jwt.strategy.ts:27-52 | refused as missing exactly when no user has the subject id, as inactive exactly when that user is inactive; otherwise the user's stored id, email and role with the token's session id |
| JwtStrategy.IdentityComesFromTheTable | src/auth/strategies/jwt.strategy.ts:46-51 | the outcome depends only on the token's subject and session id, not on the email or role it carries |
| JwtStrategy.IssuedAccessTokenAuthenticates | src/auth/strategies/jwt.strategy.ts:27-52 | an issued access token verifies exactly for its first 15 minutes and then authenticates as its user and session if the user is active, and is refused as inactive otherwise |
| PasswordValidator.AnyChar | src/auth/validators/password.validator.ts:17-26 | true exactly when some character passes the class test |
| PasswordValidator.Validate | src/auth/validators/password.validator.ts:10-29 | accepted exactly when present, at least 8 characters long, and holding an upper-case letter, a lower-case letter, a digit and one of the listed special characters |
| PasswordValidator.ShortIsRejected | src/auth/validators/password.validator.ts:11-14 | a missing or shorter than 8 password is refused |
| PasswordValidator.AppendKeepsAccepted | src/auth/validators/password.validator.ts:10-29 | extending an accepted password keeps it accepted |
| PasswordValidator.CommonPunctuationIsNotSpecial | src/auth/validators/password.validator.ts:26 | a password whose only punctuation is hyphen, underscore or space is refused |
| PasswordValidator.Examples | src/auth/validators/password.validator.ts:10-29 | "Secret12!" is accepted; "Secret12-" and "Sec12!" are refused |
| IpAddress.FirstEntry | src/auth/decorators/ip-address.decorator.ts:12 | a comma-free prefix of the header, followed by a comma when shorter than the header |
| IpAddress.NoCommaIsWhole | src/auth/decorators/ip-address.decorator.ts:12 | a header without a comma is taken whole |
| IpAddress.FirstOfList | src/auth/decorators/ip-address.decorator.ts:11-12 | of a comma-separated list, exactly the first entry is taken |
| IpAddress.ClientIp | src/auth/decorators/ip-address.decorator.ts:5-16 | a non-empty header string yields its first entry, which has no comma; a header array yields its first element or nothing; otherwise a non-empty request address, else the socket's peer address |
| SystemUsers.Exclude | src/system-users/system-users.service.ts:18-25 | a key is kept exactly when the record has it and it is not listed, with its value unchanged |
| SystemUsers.ExcludeAbsentKeys | src/system-users/system-users.service.ts:18-25 | excluding keys the record lacks returns the record |
| SystemUsers.Columns | src/system-users/system-users.service.ts:22-24 | the entries of a row are all its columns, each with the row's value |
| SystemUsers.PublicRecord | src/system-users/system-users.service.ts:46 | the password column is absent and every other column is present with its value |
| SystemUsers.PublicRecordIgnoresPassword | src/system-users/system-users.service.ts:46 | the record returned does not depend on the password digest |
| SystemUsers.PublicRecordShowsTheRest | src/system-users/system-users.service.ts:66 | two users with equal records differ at most in their password |
| SystemUsers.NewUser | src/system-users/system-users.service.ts:36-44 | the created row is active, unlocked, with no failures, and its digest verifies against the given password |
| SystemUsers.CreateUser | src/system-users/system-users.service.ts:27-44 | refused with a conflict exactly when the email is registered; otherwise the new row is inserted |
| SystemUsers.CreateKeepsValid | src/system-users/system-users.service.ts:27-44 | creating under a fresh id keeps ids and emails unique |
| SystemUsers.ApplyUpdate | src/system-users/system-users.service.ts:88-93 | each of email, first name, last name, role and active flag is the given value or, when absent, the old one; password, id, creation time, counter, lock, login and failure times never change |
| SystemUsers.UpdateUser | src/system-users/system-users.service.ts:69-93 | not found exactly for a missing id; on success only that row is replaced by the update |
| SystemUsers.UpdateConflictExactly | src/system-users/system-users.service.ts:78-85 | a conflict exactly when a non-empty email other than the user's own is given and held by someone; keeping one's own email never conflicts |
| SystemUsers.UniqueViolationOnlyForEmptyEmail | src/system-users/system-users.service.ts:78-93 | the table's unique index can only refuse an update that sets the email to the empty string, which the service does not check |
| SystemUsers.UpdateKeepsValid | src/system-users/system-users.service.ts:88-93 | a successful update keeps ids and emails unique and never changes the password |
| SystemUsers.SetPassword | src/system-users/system-users.service.ts:98-112 | not found exactly for a missing id; otherwise only that row's digest is replaced, by one that verifies against the new password alone |
| SystemUsers.Deactivate | src/system-users/system-users.service.ts:117-129 | not found exactly for a missing id; otherwise the row stays and only its active flag is cleared |
| SystemUsers.RemovedUserCannotLogIn | src/system-users/system-users.service.ts:126-129 | a removed user's login is refused whatever the password: as locked while a lock runs, as inactive otherwise |
| SystemUsers.SetPasswordAndDeactivateKeepValid | src/system-users/system-users.service.ts:98-129 | password changes and removals keep ids and emails unique |
| SystemUsers.ListByCreatedAtDesc | src/system-users/system-users.service.ts:50-52 | every user exactly once, as stored, latest created first |
| SystemUsers.SystemUsersService.Create | src/system-users/system-users.service.ts:27-47 | a registered email is refused with a conflict and nothing written; otherwise the row is inserted and returned without its password |
| SystemUsers.SystemUsersService.FindAll | src/system-users/system-users.service.ts:49-55 | the records of a complete latest-first listing of the table, none with a password |
| SystemUsers.SystemUsersService.FindOne | src/system-users/system-users.service.ts:57-67 | not found exactly for a missing id; otherwise the stored row without its password |
| SystemUsers.SystemUsersService.CheckUpdate | src/system-users/system-users.service.ts:69-85 | no refusal exactly when the update succeeds; a refusal is the error the update yields |
| SystemUsers.SystemUsersService.Update | src/system-users/system-users.service.ts:69-96 | the outcome and the new table are those of UpdateUser, and the updated row is returned without its password |
| SystemUsers.SystemUsersService.ChangePassword | src/system-users/system-users.service.ts:98-115 | the outcome and the new table are those of SetPassword |
| SystemUsers.SystemUsersService.Remove | src/system-users/system-users.service.ts:117-132 | the outcome and the new table are those of Deactivate, and the deactivated row is returned without its password |

## Left out

- bcrypt's salt and cost factor (12 rounds): a digest is an injective function of its input, so two hashes of one string are equal here, while real bcrypt hashes differ but compare equal.
- bcrypt's 72-byte limit: the services use the whole-input comparison throughout. The library's comparison is stated by `Crypto.BcryptComparePassword` and `Crypto.BcryptCompareToken` and used only in the lemmas of "## Findings". `Crypto.TokenBcryptInput` assumes user ids of at least 19 characters; the id format is not visible in the source. It also counts one byte per character.
- Sessions.MatchingTokenNamesItsSession: holds only if the whole token is compared; with the library's comparison a token of a user passes against every session of that user.
- Sessions.AtMostOneMatch: holds only if the whole token is compared; with the library's comparison a token passes against every session of its user.
- Sessions.RotateRetiresOldToken: holds only if the whole token is compared; see Auth.ReplayedTokenRefreshesAsWritten.
- Auth.LoginTokenRefreshes: acceptance holds with either comparison, but "selects the session the login created" holds only if the whole token is compared; with the library's comparison the first active session of the user is selected.
- The order of the refresh candidates: the source's `findMany` at src/auth/auth.service.ts:223-229 has no `orderBy`, so the database decides in which order the loop at :231-238 tries the sessions; the model scans them in table order. With the whole-token comparison at most one session matches (Sessions.AtMostOneMatch), so the order does not matter; with the library's comparison it decides which session `Auth.ResolveRefreshAsWritten` selects and rotates.
- Auth.RetiredTokenIsRefused: holds only if the whole token is compared; see Auth.ReplayedTokenRefreshesAsWritten.
- Auth.RevokedSessionTokenIsRefused: holds only if the whole token is compared; see Auth.RevokedTokenRefreshesAsWritten.
- Auth.AuthService.Refresh: both its first ensures, that the outcome is decided by `Auth.ResolveRefresh`, and its last ensures, that a replaced token matches no row, hold only if the whole token is compared; with the library's comparison the decision is `Auth.ResolveRefreshAsWritten`, and the rotated row still passes the replaced token (Auth.ReplayedTokenRefreshesAsWritten).
- Auth.RefreshKeepsValid: the table stays valid with either comparison, but "retires the presented token" holds only if the whole token is compared; with the library's comparison the rotated row still passes it (Crypto.SameSubjectTokensCollide, Auth.ReplayedTokenRefreshesAsWritten).
- Auth.HashPassword: "verifies against no other string" holds only if the whole password is compared; see Crypto.LongPasswordsCollide.
- SystemUsers.SetPassword: "verifies against the new password alone" holds only if the whole password is compared; see Crypto.LongPasswordsCollide.
- Email lookup and uniqueness (`Store.HasEmail`, `Store.CredentialStore.FindUserByEmail`, `SystemUsers.EmailTaken`) are exact string equality. In the program the collation of the database column decides them, and the default MariaDB collations ignore case.
- JWT encoding, the `iat` claim and second-granularity expiry: a token is its payload, secret and expiry instant in milliseconds. In the source two refresh tokens minted for one session within the same second are identical. `Auth.AuthService.Refresh` therefore promises the retirement of the presented token only when the new token differs from it.
- Auth.TokensOfDifferentInstantsDiffer: holds for instants in milliseconds here; with JWT's whole-second timestamps it holds only for instants in different seconds.
- The clock, uuid generation, request addresses and user agents are parameters (`now`, `freshId`, `ipAddress`, `userAgent`); the time is read once per call, whereas the source calls `new Date()` several times in one request.
- Concurrency: every service call is one atomic step. Interleaved logins or refreshes, and the race between the unique-email check and the insert, are not modelled.
- A failing audit insert: `createLoginAttempt` logs and swallows database errors; the model's insert always succeeds.
- The text of error messages (Spanish in the source) and HTTP status codes; errors are the constructors of `AuthError`, `Rejection` and `UserError`.
- The controllers, DTO validation, guards, throttling, the Prisma client and module wiring; the services are called with already validated input.
- Auth.AuthService.CreateSession: requires a session id, which the source's optional `sessionId?` parameter makes optional, and requires the refresh token to name that session. Both hold at its one call site in login; the source accepts any token and, without an id, lets the database choose one.
- Columns with database defaults that the source does not show (`updatedAt`, the schema's defaults): a created user starts with zero failures, no lock and `createdAt` equal to the creation time, and `updatedAt` is not modelled.
- The order of rows with equal `createdAt` in `findAll`, and with equal `lastActivityAt` in `getMySessions`, is left open: the contracts state the ordering and the contents, not tie-breaking.
- The unique-index violation the database raises when `update` sets an email held by another user without the service noticing (the empty email) surfaces as an unhandled error in the source; here it is the `UniqueViolation` error and the table is unchanged.
- JavaScript string lengths count UTF-16 code units while Dafny counts characters, so passwords outside the Basic Multilingual Plane may differ in length by the rule's count; `undefined` and the empty string are both `None` or `""` as the type requires.
- Node merges repeated `X-Forwarded-For` lines into one string; the array form is kept as the decorator's code allows it.
- `logout` does not consult its `userId`, and removing a user does not revoke their sessions; both are modelled as written, and refresh still refuses an inactive user.

## Findings

| source | as written | input that shows it | evidently intended | confidence | as-written member | corrected member |
|---|---|---|---|---|---|---|
| src/auth/auth.service.ts:233 | `bcrypt.compare` reads only the first 72 bytes of the refresh token. For every token of one user these are the same: the fixed header, a dot and the encoding of `{"sub":"` with the start of the user id. So the rotated row still matches the replaced token | log in (token T0); refresh with T0, which rotates the row to T1; refresh with T0 again before it expires: it is accepted and rotates the row once more | a refresh token matches only its own session's current token, so a replaced token is refused | not executed; high | Auth.ReplayedTokenRefreshesAsWritten | Auth.RetiredTokenIsRefused |
| src/auth/auth.service.ts:231-238 | same comparison: after `logoutSession` or `logout` revokes a session, its refresh token still passes against any other active session of the same user | log in twice (sessions S1 and S2); revoke S1; refresh with S1's token: it is accepted and S2 is rotated | a revoked session's token is refused | not executed; high | Auth.RevokedTokenRefreshesAsWritten | Auth.RevokedSessionTokenIsRefused |
| src/auth/auth.service.ts:103-106 | `bcrypt.compare` of the login password reads only its first 72 bytes, so passwords that share them are interchangeable | set a password of 72 ASCII characters followed by "x"; log in with the first 72 characters alone: accepted | the whole password is compared | not executed; medium | Crypto.LongPasswordsCollide | Auth.HashPassword |
