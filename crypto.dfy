/**
 * The two foreign primitives the services rely on, as abstract values:
 * the one-way hash (bcrypt in the source) and signed tokens (JWT).
 *
 * A digest only records what was hashed; the services never look inside
 * it, they only compare it with `VerifyHash`, a comparison of the whole
 * input. The model is deterministic and injective: the salt and cost factor
 * of bcrypt are not modelled. The library itself reads only the first 72
 * bytes of its input; `BcryptComparePassword` and `BcryptCompareToken`
 * state that comparison, which the rest of the model does not use.
 */
module Crypto {
  import opened Base

  datatype Digest<T> = Digest(preimage: T)

  function Hash<T>(secret: T): Digest<T>
  {
    Digest(secret)
  }

  /** `bcrypt.compare(secret, digest)`. */
  predicate VerifyHash<T(==)>(secret: T, digest: Digest<T>)
  {
    digest == Hash(secret)
  }

  lemma HashInjective<T>(a: T, b: T)
    requires Hash(a) == Hash(b)
    ensures a == b
  {
    assert Hash(a).preimage == a;
  }

  /** bcrypt ignores every byte of its input after the 72nd. */
  const BcryptInputBytes: nat := 72

  /** The part of a string bcrypt reads (one byte per character for ASCII input). */
  function Truncate72(s: string): (r: string)
    ensures |r| == if |s| <= BcryptInputBytes then |s| else BcryptInputBytes
    ensures r == s[..|r|]
    ensures |s| <= BcryptInputBytes ==> r == s
  {
    if |s| <= BcryptInputBytes then s else s[..BcryptInputBytes]
  }

  /** `bcrypt.compare(password, digest)` as the library performs it: on the first 72 bytes only. */
  predicate BcryptComparePassword(password: string, digest: Digest<string>)
  {
    Truncate72(password) == Truncate72(digest.preimage)
  }

  /**
   * Two passwords that agree on their first 72 characters verify against
   * each other's digest, although the whole-input comparison tells them apart.
   */
  lemma LongPasswordsCollide(p: string, suffix: string)
    requires |p| >= BcryptInputBytes && suffix != []
    ensures BcryptComparePassword(p + suffix, Hash(p))
    ensures !VerifyHash(p + suffix, Hash(p))
  {
    assert (p + suffix)[..BcryptInputBytes] == p[..BcryptInputBytes];
    assert |p + suffix| != |p|;
  }

  /** The claims carried by both the access and the refresh token. */
  datatype Payload = Payload(sub: UserId, email: string, role: string, sessionId: Option<SessionId>)

  /**
   * A bearer token as received from a client: either one minted by `Sign`
   * (payload, signing secret, expiry instant) or any other string, which
   * includes the empty string and forgeries that were never signed.
   */
  datatype Token = Signed(payload: Payload, key: string, exp: Time) | Text(text: string)

  const EmptyToken: Token := Text("")

  /** `jwtService.signAsync(payload, { secret, expiresIn })`, with the expiry resolved to an instant. */
  function Sign(payload: Payload, key: string, exp: Time): (t: Token)
    ensures t.Signed? && t.payload == payload && t != EmptyToken
  {
    Signed(payload, key, exp)
  }

  /**
   * `jwtService.verify(token, { secret })`: the payload of a token signed
   * with `key` that has not yet expired; `None` for a wrong key, an elapsed
   * expiry or a string that was never signed (one outcome for all three).
   */
  function VerifyToken(t: Token, key: string, now: Time): (r: Option<Payload>)
    ensures r.Some? <==> t.Signed? && t.key == key && now < t.exp
    ensures r.Some? ==> r.value == t.payload
  {
    match t
    case Signed(p, k, exp) => if k == key && now < exp then Some(p) else None
    case Text(_) => None
  }

  /**
   * The first 72 bytes of a token's compact form. For a signed token they are
   * the fixed 36-character HS256 header, a dot and 35 characters encoding
   * `{"sub":"` and the start of the subject id, so with ids of at least 19
   * characters they depend on the subject alone.
   */
  datatype TokenPrefix = SubjectPrefix(sub: UserId) | TextPrefix(text: string)

  function TokenBcryptInput(t: Token): TokenPrefix
  {
    match t
    case Signed(p, _, _) => SubjectPrefix(p.sub)
    case Text(s) => TextPrefix(Truncate72(s))
  }

  /** `bcrypt.compare(token, digest)` as the library performs it on a token. */
  predicate BcryptCompareToken(t: Token, digest: Digest<Token>)
  {
    TokenBcryptInput(t) == TokenBcryptInput(digest.preimage)
  }

  /**
   * Any two signed tokens with one subject pass the library's comparison
   * against each other's digest; the whole-token comparison accepts only
   * the token itself.
   */
  lemma SameSubjectTokensCollide(a: Token, b: Token)
    requires a.Signed? && b.Signed? && a.payload.sub == b.payload.sub
    ensures BcryptCompareToken(a, Hash(b))
    ensures VerifyHash(a, Hash(b)) <==> a == b
  {
  }

  /** A signed token verifies with its own key exactly until its expiry. */
  lemma SignVerifyRoundTrip(p: Payload, key: string, exp: Time, now: Time)
    ensures VerifyToken(Sign(p, key, exp), key, now) == (if now < exp then Some(p) else None)
  {
  }

  /** A token signed with one secret never verifies under a different one. */
  lemma VerifyRejectsOtherKey(p: Payload, key: string, other: string, exp: Time, now: Time)
    requires key != other
    ensures VerifyToken(Sign(p, key, exp), other, now).None?
  {
  }
}
