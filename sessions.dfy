/**
 * The session table as a sequence of rows in table order, and the queries
 * and writes the authentication service performs on it: the active
 * sessions of a user, the refresh-token scan, revocation, rotation, the
 * expiry sweep and the session listing.
 */
module Sessions {
  import opened Base
  import opened Crypto
  import opened Records
  import opened Ordering

  const SessionLifetimeMs: int := 7 * DayMs

  /** Selected by the `findMany` of `refresh` and `getMySessions`. */
  predicate IsActiveFor(s: Session, userId: UserId, now: Time)
  {
    s.userId == userId && !s.isRevoked && s.expiresAt > now
  }

  function ActiveTest(userId: UserId, now: Time): Session -> bool
  {
    (s: Session) => IsActiveFor(s, userId, now)
  }

  /** The active sessions of `userId`, in table order. */
  function ActiveFor(rows: seq<Session>, userId: UserId, now: Time): seq<Session>
  {
    Filter(rows, ActiveTest(userId, now))
  }

  /** `bcrypt.compare(token, session.refreshToken)`. */
  predicate Matches(s: Session, token: Token)
  {
    VerifyHash(token, s.refreshToken)
  }

  function MatchTest(token: Token): Session -> bool
  {
    (s: Session) => Matches(s, token)
  }

  /** `bcrypt.compare(token, session.refreshToken)` as the library performs it, on the first 72 bytes. */
  predicate MatchesAsWritten(s: Session, token: Token)
  {
    BcryptCompareToken(token, s.refreshToken)
  }

  function MatchAsWrittenTest(token: Token): Session -> bool
  {
    (s: Session) => MatchesAsWritten(s, token)
  }

  /** The first candidate whose stored digest verifies against `token`. */
  function FirstMatch(candidates: seq<Session>, token: Token): (r: Option<Session>)
    ensures r.None? <==> forall i :: 0 <= i < |candidates| ==> !Matches(candidates[i], token)
    ensures r.Some? ==>
      exists k :: 0 <= k < |candidates| && candidates[k] == r.value
        && Matches(r.value, token) && forall j :: 0 <= j < k ==> !Matches(candidates[j], token)
  {
    match FirstIndex(candidates, MatchTest(token))
    case None => None
    case Some(k) => Some(candidates[k])
  }

  /** The `for ... break` loop of `refresh`: compare the token with each candidate in turn. */
  method FindMatchingSession(candidates: seq<Session>, token: Token) returns (found: Option<Session>)
    ensures found == FirstMatch(candidates, token)
  {
    found := None;
    var i := 0;
    while i < |candidates|
      invariant 0 <= i <= |candidates|
      invariant forall j :: 0 <= j < i ==> !Matches(candidates[j], token)
    {
      if VerifyHash(token, candidates[i].refreshToken) {
        found := Some(candidates[i]);
        assert FirstIndex(candidates, MatchTest(token)) == Some(i);
        return;
      }
      i := i + 1;
    }
  }

  /**
   * The session `refresh` rotates: the first row in table order that is an
   * active session of `userId` and matches `token`.
   */
  lemma RefreshPicksFirstActiveMatch(rows: seq<Session>, userId: UserId, now: Time, token: Token)
    ensures var m := FirstMatch(ActiveFor(rows, userId, now), token);
      var b := FirstIndex(rows, Both(ActiveTest(userId, now), MatchTest(token)));
      && m.Some? == b.Some?
      && (m.Some? ==>
            && b.value < |rows| && m.value == rows[b.value]
            && IsActiveFor(rows[b.value], userId, now) && Matches(rows[b.value], token)
            && forall j :: 0 <= j < b.value ==> !(IsActiveFor(rows[j], userId, now) && Matches(rows[j], token)))
  {
    FilterThenFirst(rows, ActiveTest(userId, now), MatchTest(token));
  }

  predicate HasSessionId(rows: seq<Session>, id: SessionId)
  {
    exists i :: 0 <= i < |rows| && rows[i].id == id
  }

  function SessionIdOf(s: Session): SessionId
  {
    s.id
  }

  function IdTest(id: SessionId): Session -> bool
  {
    (s: Session) => s.id == id
  }

  /** `session.findUnique({ where: { id } })`. */
  function SessionById(rows: seq<Session>, id: SessionId): (r: Option<Session>)
    ensures r.None? <==> !HasSessionId(rows, id)
    ensures r.Some? ==> r.value in rows && r.value.id == id
  {
    match FirstIndex(rows, IdTest(id))
    case None => None
    case Some(k) => Some(rows[k])
  }

  /** The row `session.create` inserts; the remaining columns take their defaults. */
  function NewSession(id: SessionId, userId: UserId, digest: Digest<Token>, ipAddress: string, userAgent: string, now: Time): (s: Session)
    ensures s.id == id && s.userId == userId && s.refreshToken == digest
    ensures !s.isRevoked && s.expiresAt == now + SessionLifetimeMs
    ensures s.createdAt == now && s.lastActivityAt == now && IsActiveFor(s, userId, now)
  {
    Session(id, userId, digest, ipAddress, userAgent, now, now, now + SessionLifetimeMs, false, None)
  }

  // ---- writes -------------------------------------------------------------

  function RevokeIfId(id: SessionId): Session -> Session
  {
    (s: Session) => if s.id == id then s.(isRevoked := true) else s
  }

  /** `session.update({ where: { id }, data: { isRevoked: true } })`. */
  function Revoke(rows: seq<Session>, id: SessionId): (r: seq<Session>)
    ensures |r| == |rows|
    ensures forall i :: 0 <= i < |r| ==> r[i].id == rows[i].id && r[i].userId == rows[i].userId && r[i].refreshToken == rows[i].refreshToken
  {
    MapSeq(rows, RevokeIfId(id))
  }

  function RevokeIfOwned(userId: UserId): Session -> Session
  {
    (s: Session) => if s.userId == userId && !s.isRevoked then s.(isRevoked := true) else s
  }

  /** `session.updateMany({ where: { userId, isRevoked: false }, data: { isRevoked: true } })`. */
  function RevokeAllFor(rows: seq<Session>, userId: UserId): (r: seq<Session>)
    ensures |r| == |rows|
    ensures forall i :: 0 <= i < |r| ==> r[i].id == rows[i].id && r[i].userId == rows[i].userId && r[i].refreshToken == rows[i].refreshToken
  {
    MapSeq(rows, RevokeIfOwned(userId))
  }

  function RotateIfId(id: SessionId, digest: Digest<Token>, now: Time, ipAddress: string, userAgent: string): Session -> Session
  {
    (s: Session) => if s.id == id then s.(refreshToken := digest, lastActivityAt := now, ipAddress := ipAddress, userAgent := userAgent) else s
  }

  /** The update `refresh` makes to the matched session. */
  function Rotate(rows: seq<Session>, id: SessionId, digest: Digest<Token>, now: Time, ipAddress: string, userAgent: string): (r: seq<Session>)
    ensures |r| == |rows|
    ensures forall i :: 0 <= i < |r| ==>
      r[i].id == rows[i].id && r[i].userId == rows[i].userId && r[i].expiresAt == rows[i].expiresAt && r[i].isRevoked == rows[i].isRevoked
  {
    MapSeq(rows, RotateIfId(id, digest, now, ipAddress, userAgent))
  }

  function UnexpiredTest(now: Time): Session -> bool
  {
    (s: Session) => !(s.expiresAt < now)
  }

  /** `session.deleteMany({ where: { expiresAt: { lt: now } } })`. */
  function Sweep(rows: seq<Session>, now: Time): (r: seq<Session>)
    ensures |r| <= |rows|
  {
    Filter(rows, UnexpiredTest(now))
  }

  // ---- listing ------------------------------------------------------------

  function View(s: Session): (v: SessionView)
    ensures v.id == s.id && v.lastActivityAt == s.lastActivityAt
  {
    SessionView(s.id, s.ipAddress, s.userAgent, s.createdAt, s.lastActivityAt, s.deviceFingerprint)
  }

  function ViewActivity(v: SessionView): int
  {
    v.lastActivityAt
  }

  /** `getMySessions`: the active sessions of `userId`, projected, most recently active first. */
  function MySessions(rows: seq<Session>, userId: UserId, now: Time): (r: seq<SessionView>)
    ensures SortedDesc(r, ViewActivity)
    ensures multiset(r) == multiset(MapSeq(ActiveFor(rows, userId, now), View))
  {
    SortDesc(MapSeq(ActiveFor(rows, userId, now), View), ViewActivity)
  }

  // ---- properties of the writes ---------------------------------------------

  /**
   * After `logoutAll(userId)` the user has no active session left, every
   * session of the user is revoked, and the sessions of every other user
   * are exactly as they were.
   */
  lemma LogoutAllEffect(rows: seq<Session>, userId: UserId, now: Time)
    ensures var r := RevokeAllFor(rows, userId);
      && |r| == |rows|
      && ActiveFor(r, userId, now) == []
      && (forall i :: 0 <= i < |r| && rows[i].userId == userId ==> r[i] == rows[i].(isRevoked := true))
      && (forall i :: 0 <= i < |r| && rows[i].userId != userId ==> r[i] == rows[i])
      && (forall other :: other != userId ==> ActiveFor(r, other, now) == ActiveFor(rows, other, now))
  {
    var r := RevokeAllFor(rows, userId);
    FilterNone(r, ActiveTest(userId, now));
    forall other | other != userId
      ensures ActiveFor(r, other, now) == ActiveFor(rows, other, now)
    {
      FilterAfterMap(rows, RevokeIfOwned(userId), ActiveTest(other, now));
    }
  }

  /**
   * `logout` and `logoutSession` revoke the sessions with that id and touch
   * nothing else; revoking again changes nothing.
   */
  lemma RevokeEffect(rows: seq<Session>, id: SessionId)
    ensures var r := Revoke(rows, id);
      && |r| == |rows|
      && (forall i :: 0 <= i < |r| && rows[i].id == id ==> r[i] == rows[i].(isRevoked := true))
      && (forall i :: 0 <= i < |r| && rows[i].id != id ==> r[i] == rows[i])
      && Revoke(r, id) == r
  {
  }

  /** Revoking an id that is not in the table changes nothing (the swallowed not-found error of `logout`). */
  lemma RevokeMissingIsNoop(rows: seq<Session>, id: SessionId)
    requires !HasSessionId(rows, id)
    ensures Revoke(rows, id) == rows
  {
    var r := Revoke(rows, id);
    assert forall i :: 0 <= i < |rows| ==> rows[i].id != id;
    assert forall i :: 0 <= i < |rows| ==> r[i] == rows[i];
  }

  /**
   * Rotation rewrites only the digest, the activity time and the client
   * fields of the rotated session; its id, owner, expiry, revocation flag
   * and creation time stay, and every other row stays.
   */
  lemma RotateEffect(rows: seq<Session>, id: SessionId, digest: Digest<Token>, now: Time, ipAddress: string, userAgent: string)
    ensures var r := Rotate(rows, id, digest, now, ipAddress, userAgent);
      && |r| == |rows|
      && (forall i :: 0 <= i < |r| && rows[i].id == id ==>
            && r[i].refreshToken == digest && r[i].lastActivityAt == now
            && r[i].ipAddress == ipAddress && r[i].userAgent == userAgent
            && r[i].id == rows[i].id && r[i].userId == rows[i].userId
            && r[i].expiresAt == rows[i].expiresAt && r[i].isRevoked == rows[i].isRevoked
            && r[i].createdAt == rows[i].createdAt && r[i].deviceFingerprint == rows[i].deviceFingerprint)
      && (forall i :: 0 <= i < |r| && rows[i].id != id ==> r[i] == rows[i])
  {
  }

  /**
   * The sweep deletes exactly the sessions whose expiry lies strictly
   * before `now`, keeps the others in order, and leaves every user's
   * active sessions as they were: it only removes rows that were no
   * longer usable.
   */
  lemma SweepEffect(rows: seq<Session>, now: Time)
    ensures var r := Sweep(rows, now);
      && (forall i :: 0 <= i < |r| ==> r[i] in rows && r[i].expiresAt >= now)
      && (forall i :: 0 <= i < |rows| && rows[i].expiresAt >= now ==> rows[i] in r)
      && (forall userId :: ActiveFor(r, userId, now) == ActiveFor(rows, userId, now))
  {
    FilterMembers(rows, UnexpiredTest(now));
    forall userId ensures ActiveFor(Sweep(rows, now), userId, now) == ActiveFor(rows, userId, now) {
      FilterOfFilter(rows, UnexpiredTest(now), ActiveTest(userId, now));
    }
  }

  /**
   * `getMySessions` lists exactly the active sessions of the user, each
   * once per row, most recently active first.
   */
  lemma MySessionsAreTheActiveOnes(rows: seq<Session>, userId: UserId, now: Time, v: SessionView)
    ensures var r := MySessions(rows, userId, now);
      v in r <==> exists i :: 0 <= i < |rows| && IsActiveFor(rows[i], userId, now) && View(rows[i]) == v
  {
    var r := MySessions(rows, userId, now);
    var a := ActiveFor(rows, userId, now);
    var views := MapSeq(a, View);
    assert v in r <==> v in multiset(r);
    assert v in views <==> v in multiset(views);
    if v in views {
      ListedIsActive(rows, userId, now, v);
    }
    if exists i :: 0 <= i < |rows| && IsActiveFor(rows[i], userId, now) && View(rows[i]) == v {
      var i :| 0 <= i < |rows| && IsActiveFor(rows[i], userId, now) && View(rows[i]) == v;
      ActiveIsListed(rows, userId, now, i);
    }
  }

  lemma ListedIsActive(rows: seq<Session>, userId: UserId, now: Time, v: SessionView)
    requires v in MapSeq(ActiveFor(rows, userId, now), View)
    ensures exists i :: 0 <= i < |rows| && IsActiveFor(rows[i], userId, now) && View(rows[i]) == v
  {
    var a := ActiveFor(rows, userId, now);
    FilterMembers(rows, ActiveTest(userId, now));
    var views := MapSeq(a, View);
    var k :| 0 <= k < |views| && views[k] == v;
    assert a[k] in rows && ActiveTest(userId, now)(a[k]);
    var i :| 0 <= i < |rows| && rows[i] == a[k];
    assert IsActiveFor(rows[i], userId, now) && View(rows[i]) == v;
  }

  lemma ActiveIsListed(rows: seq<Session>, userId: UserId, now: Time, i: nat)
    requires i < |rows| && IsActiveFor(rows[i], userId, now)
    ensures View(rows[i]) in MapSeq(ActiveFor(rows, userId, now), View)
  {
    var a := ActiveFor(rows, userId, now);
    FilterMembers(rows, ActiveTest(userId, now));
    assert ActiveTest(userId, now)(rows[i]);
    assert rows[i] in a;
    var k :| 0 <= k < |a| && a[k] == rows[i];
    assert MapSeq(a, View)[k] == View(rows[i]);
  }

  // ---- the table invariant ------------------------------------------------

  /**
   * Session ids are distinct, and every row stores the digest of the
   * refresh token currently issued for it (`issued`, a record of what the
   * service has handed out), a signed token that names that session.
   */
  ghost predicate SessionsValid(rows: seq<Session>, issued: map<SessionId, Token>)
  {
    && KeysDistinct(rows, SessionIdOf)
    && forall i :: 0 <= i < |rows| ==>
         && rows[i].id in issued
         && rows[i].refreshToken == Hash(issued[rows[i].id])
         && issued[rows[i].id].Signed?
         && issued[rows[i].id].payload.sessionId == Some(rows[i].id)
  }

  /** Any token matching a row is the token issued for that row, and names it. */
  lemma MatchingTokenNamesItsSession(rows: seq<Session>, issued: map<SessionId, Token>, token: Token, i: nat)
    requires SessionsValid(rows, issued) && i < |rows| && Matches(rows[i], token)
    ensures token == issued[rows[i].id]
    ensures token.Signed? && token.payload.sessionId == Some(rows[i].id)
  {
    HashInjective(token, issued[rows[i].id]);
  }

  /** A token matches at most one row of the table. */
  lemma AtMostOneMatch(rows: seq<Session>, issued: map<SessionId, Token>, token: Token, i: nat, j: nat)
    requires SessionsValid(rows, issued) && i < |rows| && j < |rows|
    requires Matches(rows[i], token) && Matches(rows[j], token)
    ensures i == j
  {
    MatchingTokenNamesItsSession(rows, issued, token, i);
    MatchingTokenNamesItsSession(rows, issued, token, j);
    assert SessionIdOf(rows[i]) == SessionIdOf(rows[j]);
  }

  lemma AppendKeepsValid(rows: seq<Session>, issued: map<SessionId, Token>, s: Session, token: Token)
    requires SessionsValid(rows, issued) && !HasSessionId(rows, s.id)
    requires token.Signed? && token.payload.sessionId == Some(s.id) && s.refreshToken == Hash(token)
    ensures SessionsValid(rows + [s], issued[s.id := token])
  {
    var r := rows + [s];
    forall i, j | 0 <= i < j < |r| ensures SessionIdOf(r[i]) != SessionIdOf(r[j]) {
      if j == |rows| {
        assert r[i] == rows[i];
      } else {
        assert r[i] == rows[i] && r[j] == rows[j];
      }
    }
  }

  lemma RevokeKeepsValid(rows: seq<Session>, issued: map<SessionId, Token>, id: SessionId)
    requires SessionsValid(rows, issued)
    ensures SessionsValid(Revoke(rows, id), issued)
  {
    var r := Revoke(rows, id);
    assert forall i :: 0 <= i < |r| ==> r[i].id == rows[i].id && r[i].refreshToken == rows[i].refreshToken;
  }

  lemma RevokeAllKeepsValid(rows: seq<Session>, issued: map<SessionId, Token>, userId: UserId)
    requires SessionsValid(rows, issued)
    ensures SessionsValid(RevokeAllFor(rows, userId), issued)
  {
    var r := RevokeAllFor(rows, userId);
    assert forall i :: 0 <= i < |r| ==> r[i].id == rows[i].id && r[i].refreshToken == rows[i].refreshToken;
  }

  lemma SweepKeepsValid(rows: seq<Session>, issued: map<SessionId, Token>, now: Time)
    requires SessionsValid(rows, issued)
    ensures SessionsValid(Sweep(rows, now), issued)
  {
    FilterKeepsKeysDistinct(rows, UnexpiredTest(now), SessionIdOf);
    FilterMembers(rows, UnexpiredTest(now));
    var r := Sweep(rows, now);
    forall i | 0 <= i < |r|
      ensures r[i].id in issued && r[i].refreshToken == Hash(issued[r[i].id])
      ensures issued[r[i].id].Signed? && issued[r[i].id].payload.sessionId == Some(r[i].id)
    {
      assert r[i] in rows;
    }
  }

  /** Rotating the session `id` to the digest of a new token that names it keeps the invariant. */
  lemma RotateKeepsValid(rows: seq<Session>, issued: map<SessionId, Token>, id: SessionId,
                         newToken: Token, now: Time, ipAddress: string, userAgent: string)
    requires SessionsValid(rows, issued)
    requires newToken.Signed? && newToken.payload.sessionId == Some(id)
    ensures SessionsValid(Rotate(rows, id, Hash(newToken), now, ipAddress, userAgent), issued[id := newToken])
  {
    var r := Rotate(rows, id, Hash(newToken), now, ipAddress, userAgent);
    assert forall i :: 0 <= i < |r| ==> r[i].id == rows[i].id;
    forall i | 0 <= i < |r| && rows[i].id != id
      ensures r[i] == rows[i]
    {
    }
  }

  /**
   * After rotating the session named by `oldToken` to a different token,
   * `oldToken` matches no row at all: the replaced refresh token is dead.
   */
  lemma RotateRetiresOldToken(rows: seq<Session>, issued: map<SessionId, Token>, id: SessionId,
                              oldToken: Token, newToken: Token, now: Time, ipAddress: string, userAgent: string)
    requires SessionsValid(rows, issued)
    requires oldToken != newToken
    requires oldToken.Signed? && oldToken.payload.sessionId == Some(id)
    ensures var r := Rotate(rows, id, Hash(newToken), now, ipAddress, userAgent);
      forall i :: 0 <= i < |r| ==> !Matches(r[i], oldToken)
  {
    var r := Rotate(rows, id, Hash(newToken), now, ipAddress, userAgent);
    forall i | 0 <= i < |r|
      ensures !Matches(r[i], oldToken)
    {
      if rows[i].id == id {
        assert r[i].refreshToken == Hash(newToken);
      } else {
        assert r[i] == rows[i];
      }
    }
  }
}
