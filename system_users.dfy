/**
 * Administration of the system-user table: create, list, read, update,
 * change password and soft delete. Every record handed back leaves out the
 * `password` column.
 */
module SystemUsers {
  import opened Base
  import opened Crypto
  import opened Records
  import opened Ordering
  import Lockout
  import opened Store

  // ---- the record as returned to clients ------------------------------------

  /** The columns of the system-user table, as keys of the record's entries. */
  datatype Column =
    | Id | Email | Password | FirstName | LastName | Role | IsActive
    | FailedLoginAttempts | IsLocked | LockedUntil | LastLogin | LastFailedAttempt | CreatedAt

  /** The value of one column. */
  datatype FieldValue =
    | Str(s: string)
    | Flag(b: bool)
    | Count(n: nat)
    | Instant(t: Time)
    | MaybeInstant(o: Option<Time>)
    | Hashed(d: Digest<string>)

  type Record = map<Column, FieldValue>

  /** `exclude`: the entries of `record` whose key is not listed, each with its value. */
  function Exclude<K(!new), V>(record: map<K, V>, keys: seq<K>): (r: map<K, V>)
    ensures forall k :: k in r <==> k in record && k !in keys
    ensures forall k :: k in r ==> r[k] == record[k]
  {
    map k | k in record && k !in keys :: record[k]
  }

  /** Excluding keys the record does not have changes nothing. */
  lemma ExcludeAbsentKeys<K(!new), V>(record: map<K, V>, keys: seq<K>)
    requires forall i :: 0 <= i < |keys| ==> keys[i] !in record
    ensures Exclude(record, keys) == record
  {
    var r := Exclude(record, keys);
    assert forall k :: k in record ==> k !in keys;
    assert r.Keys == record.Keys;
  }

  const AllColumns: set<Column> := {
    Id, Email, Password, FirstName, LastName, Role, IsActive,
    FailedLoginAttempts, IsLocked, LockedUntil, LastLogin, LastFailedAttempt, CreatedAt}

  /** The value a row holds in one column. */
  function Value(u: SystemUser, c: Column): FieldValue
  {
    match c
    case Id => Str(u.id)
    case Email => Str(u.email)
    case Password => Hashed(u.password)
    case FirstName => Str(u.firstName)
    case LastName => Str(u.lastName)
    case Role => Str(u.role)
    case IsActive => Flag(u.isActive)
    case FailedLoginAttempts => Count(u.failedLoginAttempts)
    case IsLocked => Flag(u.isLocked)
    case LockedUntil => MaybeInstant(u.lockedUntil)
    case LastLogin => MaybeInstant(u.lastLogin)
    case LastFailedAttempt => MaybeInstant(u.lastFailedAttempt)
    case CreatedAt => Instant(u.createdAt)
  }

  /** The row with its columns as entries (`Object.entries`). */
  function Columns(u: SystemUser): (r: Record)
    ensures r.Keys == AllColumns
    ensures forall c :: c in r ==> r[c] == Value(u, c)
  {
    map c | c in AllColumns :: Value(u, c)
  }

  /** `exclude(user, ['password'])`. */
  function PublicRecord(u: SystemUser): (r: Record)
    ensures Password !in r
    ensures forall c :: c in r <==> c in Columns(u) && c != Password
    ensures forall c :: c in r ==> r[c] == Columns(u)[c]
  {
    Exclude(Columns(u), [Password])
  }

  /** The public record does not depend on the password digest. */
  lemma PublicRecordIgnoresPassword(u: SystemUser, d: Digest<string>)
    ensures PublicRecord(u.(password := d)) == PublicRecord(u)
  {
    var a := PublicRecord(u.(password := d));
    var b := PublicRecord(u);
    forall c | c in a ensures c in b && a[c] == b[c] {
      assert Value(u.(password := d), c) == Value(u, c);
    }
    assert a.Keys == b.Keys;
  }

  /** ... and it shows everything else: equal public records come from users that differ at most in their password. */
  lemma PublicRecordShowsTheRest(u: SystemUser, v: SystemUser)
    requires PublicRecord(u) == PublicRecord(v)
    ensures u.(password := v.password) == v
  {
    var a := PublicRecord(u);
    var b := PublicRecord(v);
    forall c | c in AllColumns && c != Password ensures Value(u, c) == Value(v, c) {
      assert a[c] == b[c];
    }
    assert Value(u, Id) == Value(v, Id) && Value(u, Email) == Value(v, Email);
    assert Value(u, FirstName) == Value(v, FirstName) && Value(u, LastName) == Value(v, LastName);
    assert Value(u, Role) == Value(v, Role) && Value(u, IsActive) == Value(v, IsActive);
    assert Value(u, FailedLoginAttempts) == Value(v, FailedLoginAttempts) && Value(u, IsLocked) == Value(v, IsLocked);
    assert Value(u, LockedUntil) == Value(v, LockedUntil) && Value(u, LastLogin) == Value(v, LastLogin);
    assert Value(u, LastFailedAttempt) == Value(v, LastFailedAttempt) && Value(u, CreatedAt) == Value(v, CreatedAt);
  }

  // ---- the table operations ------------------------------------------------

  datatype CreateInput = CreateInput(email: string, password: string, firstName: string, lastName: string, role: string)

  /** Every field may be left out; a `password` given here is ignored. */
  datatype UpdateInput = UpdateInput(
    email: Option<string>,
    password: Option<string>,
    firstName: Option<string>,
    lastName: Option<string>,
    role: Option<string>,
    isActive: Option<bool>)

  /**
   * `NotFound` and `Conflict` are raised by the service; `UniqueViolation` is
   * the table's own unique index on `email` refusing the write.
   */
  datatype UserError = NotFound | Conflict | UniqueViolation

  /** The row `create` inserts: the password hashed, the account active, no failures, no lock. */
  function NewUser(id: UserId, input: CreateInput, now: Time): (u: SystemUser)
    ensures u.id == id && u.email == input.email && VerifyHash(input.password, u.password)
    ensures u.isActive && u.failedLoginAttempts == 0 && !u.isLocked && u.createdAt == now
  {
    SystemUser(id, input.email, Hash(input.password), input.firstName, input.lastName, input.role,
               true, 0, false, None, None, None, now)
  }

  /** The effect of `create` on the table. */
  function CreateUser(users: map<UserId, SystemUser>, id: UserId, input: CreateInput, now: Time)
    : (r: Result<map<UserId, SystemUser>, UserError>)
    ensures r.Failure? <==> HasEmail(users, input.email)
    ensures r.Failure? ==> r.error == Conflict
    ensures r.Success? ==> r.value == users[id := NewUser(id, input, now)]
  {
    if HasEmail(users, input.email) then Failure(Conflict)
    else Success(users[id := NewUser(id, input, now)])
  }

  /** Creating under a fresh id keeps ids and emails unique. */
  lemma CreateKeepsValid(users: map<UserId, SystemUser>, id: UserId, input: CreateInput, now: Time)
    requires UsersValid(users) && id !in users
    requires CreateUser(users, id, input, now).Success?
    ensures UsersValid(CreateUser(users, id, input, now).value)
  {
  }

  /** The fields `update` writes: those given, except the password, which is dropped. */
  function ApplyUpdate(u: SystemUser, input: UpdateInput): (v: SystemUser)
    ensures v.password == u.password && v.id == u.id && v.createdAt == u.createdAt
    ensures v.failedLoginAttempts == u.failedLoginAttempts && v.isLocked == u.isLocked && v.lockedUntil == u.lockedUntil
    ensures v.email == (if input.email.Some? then input.email.value else u.email)
    ensures v.isActive == (if input.isActive.Some? then input.isActive.value else u.isActive)
    ensures v.firstName == (if input.firstName.Some? then input.firstName.value else u.firstName)
    ensures v.lastName == (if input.lastName.Some? then input.lastName.value else u.lastName)
    ensures v.role == (if input.role.Some? then input.role.value else u.role)
    ensures v.lastLogin == u.lastLogin && v.lastFailedAttempt == u.lastFailedAttempt
  {
    u.(email := if input.email.Some? then input.email.value else u.email,
       firstName := if input.firstName.Some? then input.firstName.value else u.firstName,
       lastName := if input.lastName.Some? then input.lastName.value else u.lastName,
       role := if input.role.Some? then input.role.value else u.role,
       isActive := if input.isActive.Some? then input.isActive.value else u.isActive)
  }

  /** Whether the email check of `update` refuses the new email. */
  predicate EmailTaken(users: map<UserId, SystemUser>, u: SystemUser, email: Option<string>)
  {
    email.Some? && email.value != "" && email.value != u.email && HasEmail(users, email.value)
  }

  /** The effect of `update` on the table. */
  function UpdateUser(users: map<UserId, SystemUser>, id: UserId, input: UpdateInput)
    : (r: Result<map<UserId, SystemUser>, UserError>)
    ensures r == Failure(NotFound) <==> id !in users
    ensures r.Success? ==> id in users && r.value == users[id := ApplyUpdate(users[id], input)]
  {
    if id !in users then Failure(NotFound)
    else
      var u := users[id];
      if EmailTaken(users, u, input.email) then Failure(Conflict)
      else
        var v := ApplyUpdate(u, input);
        if exists k :: k in users && k != id && users[k].email == v.email then Failure(UniqueViolation)
        else Success(users[id := v])
  }

  /**
   * An existing user's update is refused as a conflict exactly when a
   * non-empty email other than their own is given and someone holds it;
   * keeping one's own email is never a conflict.
   */
  lemma UpdateConflictExactly(users: map<UserId, SystemUser>, id: UserId, input: UpdateInput)
    requires id in users
    ensures UpdateUser(users, id, input) == Failure(Conflict) <==>
      && input.email.Some? && input.email.value != "" && input.email.value != users[id].email
      && exists k :: k in users && users[k].email == input.email.value
    ensures input.email == Some(users[id].email) ==> UpdateUser(users, id, input) != Failure(Conflict)
  {
  }

  /**
   * On a valid table the store-level refusal only happens for the one email
   * the service does not check: the empty string, held by another user.
   */
  lemma UniqueViolationOnlyForEmptyEmail(users: map<UserId, SystemUser>, id: UserId, input: UpdateInput)
    requires UsersValid(users)
    requires UpdateUser(users, id, input) == Failure(UniqueViolation)
    ensures input.email == Some("")
  {
  }

  /** A successful update keeps ids and emails unique, and never changes the password. */
  lemma UpdateKeepsValid(users: map<UserId, SystemUser>, id: UserId, input: UpdateInput)
    requires UsersValid(users)
    requires UpdateUser(users, id, input).Success?
    ensures UsersValid(UpdateUser(users, id, input).value)
    ensures UpdateUser(users, id, input).value[id].password == users[id].password
  {
  }

  /** The effect of `changePassword`: only the digest is replaced. */
  function SetPassword(users: map<UserId, SystemUser>, id: UserId, newPassword: string)
    : (r: Result<map<UserId, SystemUser>, UserError>)
    ensures r.Failure? <==> id !in users
    ensures r.Failure? ==> r.error == NotFound
    ensures r.Success? ==>
      && r.value.Keys == users.Keys
      && r.value[id] == users[id].(password := r.value[id].password)
      && VerifyHash(newPassword, r.value[id].password)
      && (forall other :: other != newPassword ==> !VerifyHash(other, r.value[id].password))
      && (forall k :: k in users && k != id ==> r.value[k] == users[k])
  {
    if id !in users then Failure(NotFound)
    else Success(users[id := users[id].(password := Hash(newPassword))])
  }

  /** The effect of `remove`: a soft delete, the row stays and is only deactivated. */
  function Deactivate(users: map<UserId, SystemUser>, id: UserId): (r: Result<map<UserId, SystemUser>, UserError>)
    ensures r.Failure? <==> id !in users
    ensures r.Failure? ==> r.error == NotFound
    ensures r.Success? ==>
      && r.value.Keys == users.Keys
      && r.value[id] == users[id].(isActive := false)
      && (forall k :: k in users && k != id ==> r.value[k] == users[k])
  {
    if id !in users then Failure(NotFound)
    else Success(users[id := users[id].(isActive := false)])
  }

  /**
   * A removed user can no longer log in, whatever password they give: an
   * attempt is refused as locked while a lock runs, and as inactive otherwise.
   */
  lemma RemovedUserCannotLogIn(users: map<UserId, SystemUser>, id: UserId, passwordOk: bool, now: Time)
    requires id in users
    ensures var u := Deactivate(users, id).value[id];
      var o := Lockout.LoginStep(u, passwordOk, now).outcome;
      !o.Succeeded? && (Lockout.IsLocked(u, now) ==> o.LockedOut?) && (!Lockout.IsLocked(u, now) ==> o.Inactive?)
  {
  }

  /** Password and deactivation writes keep ids and emails unique. */
  lemma SetPasswordAndDeactivateKeepValid(users: map<UserId, SystemUser>, id: UserId, newPassword: string)
    requires UsersValid(users) && id in users
    ensures UsersValid(SetPassword(users, id, newPassword).value)
    ensures UsersValid(Deactivate(users, id).value)
  {
    ReplaceUserKeepsValid(users, id, users[id].(password := Hash(newPassword)));
    ReplaceUserKeepsValid(users, id, users[id].(isActive := false));
  }

  // ---- listing ---------------------------------------------------------------

  function CreatedAtOf(u: SystemUser): int
  {
    u.createdAt
  }

  /**
   * `findMany({ orderBy: { createdAt: 'desc' } })`: one row per user, each
   * as stored, latest created first.
   */
  predicate IsListing(rows: seq<SystemUser>, users: map<UserId, SystemUser>)
  {
    && |rows| == |users|
    && SortedDesc(rows, CreatedAtOf)
    && (forall i :: 0 <= i < |rows| ==> rows[i].id in users && users[rows[i].id] == rows[i])
    && (forall k :: k in users ==> users[k] in rows)
  }

  /** A listing in progress: sorted, and holding exactly the users whose ids are in `done`. */
  predicate ListsExactly(rows: seq<SystemUser>, users: map<UserId, SystemUser>, done: set<UserId>)
  {
    && done <= users.Keys
    && |rows| == |done|
    && SortedDesc(rows, CreatedAtOf)
    && (forall i :: 0 <= i < |rows| ==> rows[i].id in done && users[rows[i].id] == rows[i])
    && (forall k :: k in done ==> users[k] in rows)
  }

  /** Inserting one more user into a listing in progress. */
  lemma ListingStep(rows: seq<SystemUser>, users: map<UserId, SystemUser>, done: set<UserId>, k: UserId)
    requires UsersValid(users) && ListsExactly(rows, users, done) && k in users && k !in done
    ensures ListsExactly(InsertDesc(users[k], rows, CreatedAtOf), users, done + {k})
  {
    InsertDescElements(users[k], rows, CreatedAtOf);
    InsertDescSorted(users[k], rows, CreatedAtOf);
    var r := InsertDesc(users[k], rows, CreatedAtOf);
    forall i | 0 <= i < |r| ensures r[i].id in done + {k} && users[r[i].id] == r[i] {
      if r[i] != users[k] {
        var j :| 0 <= j < |rows| && rows[j] == r[i];
      }
    }
  }

  lemma ListingComplete(rows: seq<SystemUser>, users: map<UserId, SystemUser>)
    requires ListsExactly(rows, users, users.Keys)
    ensures IsListing(rows, users)
  {
    assert |users.Keys| == |users|;
  }

  /** The ordered query under `findAll`: each user inserted into a list kept latest-first. */
  method ListByCreatedAtDesc(users: map<UserId, SystemUser>) returns (rows: seq<SystemUser>)
    requires UsersValid(users)
    ensures IsListing(rows, users)
  {
    var remaining := users.Keys;
    ghost var done: set<UserId> := {};
    rows := [];
    while remaining != {}
      invariant remaining <= users.Keys && done == users.Keys - remaining
      invariant ListsExactly(rows, users, done)
      decreases remaining
    {
      var k :| k in remaining;
      ListingStep(rows, users, done, k);
      rows := InsertDesc(users[k], rows, CreatedAtOf);
      remaining := remaining - {k};
      done := done + {k};
    }
    ListingComplete(rows, users);
  }

  class SystemUsersService {
    const store: CredentialStore

    constructor (store: CredentialStore)
      ensures this.store == store
    {
      this.store := store;
    }

    /** `create`: refused with `Conflict` when the email is registered; otherwise inserted under `freshId`. */
    method Create(input: CreateInput, freshId: UserId, now: Time) returns (r: Result<Record, UserError>)
      requires store.Valid() && freshId !in store.users
      modifies store`users
      ensures store.Valid()
      ensures var t := CreateUser(old(store.users), freshId, input, now);
        if t.Failure? then r == Failure(Conflict) && store.users == old(store.users)
        else store.users == t.value && r == Success(PublicRecord(NewUser(freshId, input, now)))
    {
      var existingUser := store.FindUserByEmail(input.email);
      if existingUser.Some? {
        return Failure(Conflict);
      }
      var hashedPassword := Hash(input.password);
      var user := SystemUser(freshId, input.email, hashedPassword, input.firstName, input.lastName, input.role,
                             true, 0, false, None, None, None, now);
      CreateKeepsValid(store.users, freshId, input, now);
      store.SetUsers(store.users[freshId := user]);
      r := Success(PublicRecord(user));
    }

    /** `findAll`: every user, latest created first, without the password. */
    method FindAll() returns (r: seq<Record>)
      requires store.Valid()
      ensures exists rows :: IsListing(rows, store.users) && r == MapSeq(rows, PublicRecord)
      ensures forall i :: 0 <= i < |r| ==> Password !in r[i]
    {
      var users := ListByCreatedAtDesc(store.users);
      r := MapSeq(users, PublicRecord);
    }

    /** `findOne`. */
    method FindOne(id: UserId) returns (r: Result<Record, UserError>)
      ensures r.Failure? <==> id !in store.users
      ensures r.Failure? ==> r.error == NotFound
      ensures r.Success? ==> r.value == PublicRecord(store.users[id]) && Password !in r.value
    {
      if id !in store.users {
        return Failure(NotFound);
      }
      r := Success(PublicRecord(store.users[id]));
    }

    /** The checks `update` makes before writing: the user exists, the new email is not someone else's. */
    method CheckUpdate(id: UserId, input: UpdateInput) returns (refusal: Option<UserError>)
      requires store.Valid()
      ensures refusal.None? <==> UpdateUser(store.users, id, input).Success?
      ensures refusal.Some? ==> UpdateUser(store.users, id, input) == Failure(refusal.value)
    {
      ghost var expected := UpdateUser(store.users, id, input);
      if id !in store.users {
        return Some(NotFound);
      }
      var user := store.users[id];
      if input.email.Some? && input.email.value != "" && input.email.value != user.email {
        var existingEmail := store.FindUserByEmail(input.email.value);
        if existingEmail.Some? {
          assert expected == Failure(Conflict);
          return Some(Conflict);
        }
      }
      var updatedUser := ApplyUpdate(user, input);
      if exists k :: k in store.users && k != id && store.users[k].email == updatedUser.email {
        assert expected == Failure(UniqueViolation);
        return Some(UniqueViolation);
      }
      assert expected == Success(store.users[id := updatedUser]);
      refusal := None;
    }

    /** `update`: the checks, then the write of the given fields without the password. */
    method Update(id: UserId, input: UpdateInput) returns (r: Result<Record, UserError>)
      requires store.Valid()
      modifies store`users
      ensures store.Valid()
      ensures match UpdateUser(old(store.users), id, input)
        case Failure(e) => r == Failure(e) && store.users == old(store.users)
        case Success(t) => store.users == t && r == Success(PublicRecord(t[id]))
    {
      var refusal := CheckUpdate(id, input);
      if refusal.Some? {
        return Failure(refusal.value);
      }
      var updatedUser := ApplyUpdate(store.users[id], input);
      ghost var t := store.users[id := updatedUser];
      assert UpdateUser(store.users, id, input) == Success(t);
      UpdateKeepsValid(store.users, id, input);
      store.SetUsers(store.users[id := updatedUser]);
      r := Success(PublicRecord(updatedUser));
    }

    /** `changePassword`. */
    method ChangePassword(id: UserId, newPassword: string) returns (r: Result<(), UserError>)
      requires store.Valid()
      modifies store`users
      ensures store.Valid()
      ensures match SetPassword(old(store.users), id, newPassword)
        case Failure(e) => r == Failure(e) && store.users == old(store.users)
        case Success(t) => r == Success(()) && store.users == t
    {
      if id !in store.users {
        return Failure(NotFound);
      }
      var hashedPassword := Hash(newPassword);
      SetPasswordAndDeactivateKeepValid(store.users, id, newPassword);
      store.SetUsers(store.users[id := store.users[id].(password := hashedPassword)]);
      r := Success(());
    }

    /** `remove`. */
    method Remove(id: UserId) returns (r: Result<Record, UserError>)
      requires store.Valid()
      modifies store`users
      ensures store.Valid()
      ensures match Deactivate(old(store.users), id)
        case Failure(e) => r == Failure(e) && store.users == old(store.users)
        case Success(t) => store.users == t && r == Success(PublicRecord(t[id]))
    {
      if id !in store.users {
        return Failure(NotFound);
      }
      SetPasswordAndDeactivateKeepValid(store.users, id, "");
      var updatedUser := store.users[id].(isActive := false);
      store.SetUsers(store.users[id := updatedUser]);
      r := Success(PublicRecord(updatedUser));
    }
  }
}
