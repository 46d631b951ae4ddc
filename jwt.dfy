/** The part of jsonwebtoken the services use. A token string is either a
    well-formed compact JWS (a payload and a signature made under some key)
    or any other text. `jwt.sign` adds `iat` (whole seconds of the clock) and
    `exp` to the claims it is given; `jwt.decode` returns the payload of a
    well-formed token WITHOUT checking its signature or its expiry. */
module Jwt {
  import opened Common

  /** The decoded claims. A token made elsewhere may lack any claim, `iat`
      included (a caller of `jwt.sign` can switch it off). */
  datatype Payload = Payload(userId: Option<int>, username: Option<string>, iat: Option<int>, exp: Option<int>)

  datatype Token = Jws(payload: Payload, signingKey: string) | Malformed(text: string)

  /** The `iat` claim: seconds since the epoch, rounded down. */
  function IssuedAt(nowMs: nat): nat {
    nowMs / 1000
  }

  /** `jwt.sign({ userId, username }, secret, { expiresIn })` at clock nowMs. */
  function Sign(userId: int, username: string, secret: string, expiresIn: int, nowMs: nat): (t: Token)
    ensures Decode(t) == Some(Payload(Some(userId), Some(username), Some(nowMs / 1000), Some(nowMs / 1000 + expiresIn)))
    ensures t.Jws? && t.signingKey == secret
  {
    Jws(Payload(Some(userId), Some(username), Some(IssuedAt(nowMs)), Some(IssuedAt(nowMs) + expiresIn)), secret)
  }

  /** `jwt.decode(token)`: null for a malformed token, otherwise the payload,
      whoever signed it. */
  function Decode(t: Token): (p: Option<Payload>)
    ensures p.Some? <==> t.Jws?
    ensures p.Some? ==> p.value == t.payload
  {
    match t
    case Jws(payload, _) => Some(payload)
    case Malformed(_) => None
  }

  /** Decoding does not look at the signature: a token re-signed under any
      other key (a forged one) decodes to the same claims. */
  lemma DecodeIgnoresSignature(t: Token, key: string)
    requires t.Jws?
    ensures Decode(t.(signingKey := key)) == Decode(t)
  {
  }

  /** Tokens signed in different seconds differ, because `iat` differs. */
  lemma SignDiffersAcrossSeconds(userId: int, username: string, secret: string, expiresIn: int, t1: nat, t2: nat)
    requires t1 / 1000 != t2 / 1000
    ensures Sign(userId, username, secret, expiresIn, t1) != Sign(userId, username, secret, expiresIn, t2)
  {
    assert Decode(Sign(userId, username, secret, expiresIn, t1)).value.iat == Some(t1 / 1000);
  }
}
