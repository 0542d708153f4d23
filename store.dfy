/**
 * The credential store both services share: the system-user table keyed
 * by id, the session table in row order and the append-only login-attempt
 * log. Each service call is treated as one atomic step over this object.
 */
module Store {
  import opened Base
  import opened Crypto
  import opened Records
  import opened Sessions

  /** Every user is stored under its own id, and no two users share an email. */
  ghost predicate UsersValid(users: map<UserId, SystemUser>)
  {
    && (forall k :: k in users ==> users[k].id == k)
    && (forall a, b :: a in users && b in users && users[a].email == users[b].email ==> a == b)
  }

  predicate HasEmail(users: map<UserId, SystemUser>, email: string)
  {
    exists k :: k in users && users[k].email == email
  }

  /** Rewriting a user without touching its id or email keeps the table valid. */
  lemma ReplaceUserKeepsValid(users: map<UserId, SystemUser>, id: UserId, v: SystemUser)
    requires UsersValid(users) && id in users
    requires v.id == id && v.email == users[id].email
    ensures UsersValid(users[id := v])
  {
  }

  class CredentialStore {
    var users: map<UserId, SystemUser>
    var sessions: seq<Session>
    var attempts: seq<LoginAttempt>
    /** The refresh token most recently issued for each session id. */
    ghost var issued: map<SessionId, Token>

    ghost predicate Valid()
      reads this
    {
      UsersValid(users) && SessionsValid(sessions, issued)
    }

    constructor ()
      ensures Valid()
      ensures users == map[] && sessions == [] && attempts == []
    {
      users := map[];
      sessions := [];
      attempts := [];
      issued := map[];
    }

    /** Replaces the user table by one that keeps ids and emails unique. */
    method SetUsers(newUsers: map<UserId, SystemUser>)
      requires Valid() && UsersValid(newUsers)
      modifies this`users
      ensures Valid() && users == newUsers
    {
      users := newUsers;
    }

    /** `systemUser.findUnique({ where: { email } })`. */
    method FindUserByEmail(email: string) returns (u: Option<SystemUser>)
      requires Valid()
      ensures u.None? <==> !HasEmail(users, email)
      ensures u.Some? ==> u.value.id in users && users[u.value.id] == u.value && u.value.email == email
    {
      if exists k :: k in users && users[k].email == email {
        var k :| k in users && users[k].email == email;
        u := Some(users[k]);
      } else {
        u := None;
      }
    }
  }
}
