/** JSON Web Tokens as `jsonwebtoken` signs and verifies them, symbolically
    (RFC 7519). A token carries the `userId` payload, the secret that signed
    it (standing for the HMAC signature) and the `exp` claim of section
    4.1.4, in whole seconds. The compact serialisation is replaced by a
    reversible text encoding whose only properties the model uses are that
    it decodes back and contains no blank. */
module Jwt {
  import opened Wrappers
  import opened Strings

  /** `expiresIn: "15m"` in seconds. */
  const AccessTokenTtl: nat := 15 * 60
  /** `expiresIn: "7d"` in seconds. */
  const RefreshTokenTtl: nat := 7 * 24 * 60 * 60

  datatype Claims = Claims(userId: string, signedWith: string, exp: nat)

  function Encode(c: Claims): (token: string)
    ensures forall i :: 0 <= i < |token| ==> token[i] != ' '
  {
    Escape(c.userId) + "." + Escape(c.signedWith) + "." + NatToString(c.exp)
  }

  function Decode(token: string): Option<Claims> {
    var parts := Split(token, '.');
    if |parts| != 3 then None
    else
      match (Unescape(parts[0]), Unescape(parts[1]), ParseNat(parts[2]))
      case (Some(u), Some(k), Some(e)) => Some(Claims(u, k, e))
      case _ => None
  }

  /** An encoded token splits at its dots into exactly its three fields. */
  lemma EncodeSplits(c: Claims)
    ensures Split(Encode(c), '.') == [Escape(c.userId), Escape(c.signedWith), NatToString(c.exp)]
  {
    var a, b, d := Escape(c.userId), Escape(c.signedWith), NatToString(c.exp);
    assert Encode(c) == a + ['.'] + (b + ['.'] + d);
    assert '.' !in a by { assert forall i :: 0 <= i < |a| ==> !Reserved(a[i]); }
    assert '.' !in b by { assert forall i :: 0 <= i < |b| ==> !Reserved(b[i]); }
    assert '.' !in d by { assert forall i :: 0 <= i < |d| ==> IsDigit(d[i]); }
    SplitAtSeparator(a, b + ['.'] + d, '.');
    SplitAtSeparator(b, d, '.');
    SplitWithout(d, '.');
  }

  /** Every token decodes to the claims it was encoded from. */
  lemma DecodeEncode(c: Claims)
    ensures Decode(Encode(c)) == Some(c)
  {
    EncodeSplits(c);
    UnescapeEscape(c.userId);
    UnescapeEscape(c.signedWith);
    ParseNatToString(c.exp);
  }

  /** `jwt.sign({ userId }, secret, { expiresIn: ttl })` at `nowMs`
      milliseconds: `exp` is the current whole second plus the lifetime. */
  function Sign(userId: string, secret: string, ttl: nat, nowMs: nat): (token: string)
    ensures Decode(token) == Some(Claims(userId, secret, nowMs / 1000 + ttl))
    ensures ' ' !in token
  {
    DecodeEncode(Claims(userId, secret, nowMs / 1000 + ttl));
    Encode(Claims(userId, secret, nowMs / 1000 + ttl))
  }

  /** `jwt.verify(token, secret)`: the `userId` claim of a token signed with
      `secret` whose `exp` lies after the current whole second; None where
      the library throws (malformed, wrong signature, expired). */
  function Verify(token: string, secret: string, nowMs: nat): (userId: Option<string>)
    ensures userId.Some? <==> Decode(token).Some? && Decode(token).value.signedWith == secret && nowMs / 1000 < Decode(token).value.exp
    ensures userId.Some? ==> userId.value == Decode(token).value.userId
  {
    match Decode(token)
    case None => None
    case Some(c) => if c.signedWith == secret && nowMs / 1000 < c.exp then Some(c.userId) else None
  }

  /** A signed token verifies under the same secret, for the same user,
      until its lifetime has run out, and never under another secret. */
  lemma VerifySign(userId: string, secret: string, ttl: nat, issuedMs: nat, key: string, nowMs: nat)
    ensures Verify(Sign(userId, secret, ttl, issuedMs), key, nowMs)
         == if key == secret && nowMs / 1000 < issuedMs / 1000 + ttl then Some(userId) else None
  {
    DecodeEncode(Claims(userId, secret, issuedMs / 1000 + ttl));
  }

  /** Signing is injective in the user and the secret: equal tokens were
      issued for the same user, with the same secret, expiring together. */
  lemma SignInjective(u1: string, k1: string, ttl1: nat, t1: nat, u2: string, k2: string, ttl2: nat, t2: nat)
    requires Sign(u1, k1, ttl1, t1) == Sign(u2, k2, ttl2, t2)
    ensures u1 == u2 && k1 == k2 && t1 / 1000 + ttl1 == t2 / 1000 + ttl2
  {
    DecodeEncode(Claims(u1, k1, t1 / 1000 + ttl1));
    DecodeEncode(Claims(u2, k2, t2 / 1000 + ttl2));
  }

  /** An access token issued at `issuedMs` is accepted exactly until 15
      minutes after the start of the second it was issued in. */
  lemma AccessTokenLifetime(userId: string, secret: string, issuedMs: nat, nowMs: nat)
    ensures Verify(Sign(userId, secret, AccessTokenTtl, issuedMs), secret, nowMs).Some?
        <==> nowMs < issuedMs - issuedMs % 1000 + 900000
  {
    VerifySign(userId, secret, AccessTokenTtl, issuedMs, secret, nowMs);
    assert issuedMs - issuedMs % 1000 == 1000 * (issuedMs / 1000);
    assert nowMs / 1000 < issuedMs / 1000 + 900 <==> nowMs < 1000 * (issuedMs / 1000 + 900);
  }
}
