/**
 Tokens and their blocklist: minting, verification, revocation and refresh. The clock is monotone and counts ticks;
 claims hold whole seconds. A token is accepted only while now < exp + leeway (section 4.1.4 of RFC 7519), or during
 the second after it as well by a verifier that is configured so. Signing is not modelled: a token is represented by
 its claims.
 */
module Tokens {
  import opened Wrappers

  const TICKS_PER_SECOND: nat := 1_000_000_000

  type Ticks = nat

  function Seconds(t: Ticks): (s: nat)
    ensures s * TICKS_PER_SECOND <= t < (s + 1) * TICKS_PER_SECOND
  {
    t / TICKS_PER_SECOND
  }

  datatype TokenKind = Access | Refresh | Service

  datatype Claims = Claims(
    sub: string,
    iss: Option<string>,
    aud: Option<string>,
    exp: Option<int>,
    iat: Option<int>,
    nbf: Option<int>,
    jti: Option<string>,
    tenantId: string,
    roles: seq<string>,
    groups: seq<string>,
    permissions: seq<string>,
    kind: TokenKind,
    email: Option<string>,
    name: Option<string>)

  datatype Config = Config(
    accessDuration: Ticks,
    refreshDuration: Ticks,
    issuer: string,
    audience: string,
    verifyExp: bool,
    verifyAud: bool,
    leeway: nat,
    acceptsAtExpiry: bool)

  datatype AuthError = Expired | WrongIssuer | WrongAudience | MissingExpiry | TypeMismatch | Revoked

  datatype Pair = Pair(access: Claims, refresh: Claims)

  // ---------------------------------------------------------------- the blocklist

  // The instant a block ends, or none for a permanent block.
  type Entries = map<string, Option<Ticks>>

  function BlockEnd(now: Ticks, ttl: Option<Ticks>): Option<Ticks> {
    if ttl.None? then None else Some(now + ttl.value)
  }

  predicate Blocked(entries: Entries, jti: string, now: Ticks) {
    jti in entries && (entries[jti].None? || entries[jti].value > now)
  }

  function Unexpired(entries: Entries, now: Ticks): Entries {
    map k | k in entries && (entries[k].None? || entries[k].value > now) :: entries[k]
  }

  class InMemoryBlocklist {
    var entries: Entries

    constructor ()
      ensures entries == map[]
    {
      entries := map[];
    }

    method Block(jti: string, ttl: Option<Ticks>, now: Ticks)
      modifies this
      ensures entries == old(entries)[jti := if ttl.None? then None else Some(now + ttl.value)]
    {
      var expiresAt := BlockEnd(now, ttl);
      entries := entries[jti := expiresAt];
    }

    method IsBlocked(jti: string, now: Ticks) returns (blocked: bool)
      ensures blocked == Blocked(entries, jti, now)
      ensures jti !in entries ==> !blocked
      ensures jti in entries && entries[jti].None? ==> blocked
      ensures jti in entries && entries[jti].Some? ==> (blocked <==> now < entries[jti].value)
    {
      if jti !in entries {
        return false;
      }
      match entries[jti]
      case None => return true;
      case Some(expiresAt) => return expiresAt > now;
    }

    method Unblock(jti: string)
      modifies this
      ensures entries == old(entries) - {jti}
    {
      entries := entries - {jti};
    }

    method Cleanup(now: Ticks)
      modifies this
      ensures entries == Unexpired(old(entries), now)
      ensures forall jti :: jti in entries <==> Blocked(old(entries), jti, now)
      ensures forall jti <- entries :: entries[jti] == old(entries)[jti]
    {
      entries := Unexpired(entries, now);
    }
  }

  // ---------------------------------------------------------------- the handler

  // What the handler stamps on a copy of the given claims.
  function Stamped(c: Config, base: Claims, kind: TokenKind, duration: Ticks, now: Ticks, jti: string): Claims {
    base.(kind := kind, iss := Some(c.issuer), aud := Some(c.audience), iat := Some(Seconds(now)),
          nbf := Some(Seconds(now)), exp := Some(Seconds(now + duration)), jti := Some(jti))
  }

  function Minted(c: Config, base: Claims, kind: TokenKind, now: Ticks, jti: string): Claims {
    Stamped(c, base, kind, if kind == Refresh then c.refreshDuration else c.accessDuration, now, jti)
  }

  function MintedPair(c: Config, base: Claims, now: Ticks, accessJti: string, refreshJti: string): Pair {
    Pair(Minted(c, base, Access, now, accessJti), Minted(c, base, Refresh, now, refreshJti))
  }

  // The subject and its rights.
  ghost predicate SameIdentity(t: Claims, base: Claims) {
    && t.sub == base.sub && t.tenantId == base.tenantId
    && t.roles == base.roles && t.groups == base.groups && t.permissions == base.permissions
  }

  // Issued by this handler at this time, to live for the given duration.
  ghost predicate IssuedFor(c: Config, t: Claims, kind: TokenKind, duration: Ticks, now: Ticks, jti: string) {
    && t.kind == kind && t.jti == Some(jti)
    && t.iss == Some(c.issuer) && t.aud == Some(c.audience)
    && t.iat == Some(Seconds(now)) && t.nbf == Some(Seconds(now))
    && t.exp == Some(Seconds(now + duration))
  }

  // One more second for a verifier that still accepts at the moment of expiry.
  function Grace(c: Config): nat {
    if c.acceptsAtExpiry then 1 else 0
  }

  function Verified(c: Config, t: Claims, expected: Option<TokenKind>, now: Ticks): Result<Claims, AuthError> {
    if t.exp.None? then Err(MissingExpiry)
    else if c.verifyExp && !(Seconds(now) < t.exp.value + c.leeway + Grace(c)) then Err(Expired)
    else if t.iss != Some(c.issuer) then Err(WrongIssuer)
    else if c.verifyAud && t.aud != Some(c.audience) then Err(WrongAudience)
    else if expected.Some? && t.kind != expected.value then Err(TypeMismatch)
    else Ok(t)
  }

  // Verification including the blocklist.
  function VerifiedAsync(c: Config, entries: Entries, t: Claims, expected: Option<TokenKind>, now: Ticks)
    : Result<Claims, AuthError>
  {
    var r := Verified(c, t, expected, now);
    if r.Ok? && t.jti.Some? && Blocked(entries, t.jti.value, now) then Err(Revoked) else r
  }

  // How long a block must last, in whole seconds; zero for a token past its expiry.
  function Remaining(t: Claims, now: Ticks): Option<Ticks> {
    if t.exp.None? then None
    else
      var remaining := t.exp.value - Seconds(now);
      Some(if remaining > 0 then remaining * TICKS_PER_SECOND else 0)
  }

  // The blocklist after a revocation, and whether it was reported done.
  function RevokedEntries(entries: Entries, t: Claims, now: Ticks): (Entries, bool) {
    if t.jti.None? then (entries, false)
    else if Remaining(t, now) == Some(0) then (entries, true)
    else (entries[t.jti.value := BlockEnd(now, Remaining(t, now))], true)
  }

  // The claims that a refresh carries over: email and name are not among them.
  function Carried(t: Claims): Claims {
    Claims(t.sub, None, None, None, None, None, None, t.tenantId, t.roles, t.groups, t.permissions, Access, None, None)
  }

  function Refreshed(c: Config, t: Claims, now: Ticks, accessJti: string, refreshJti: string): Pair {
    MintedPair(c, Carried(t), now, accessJti, refreshJti)
  }

  // Each reason to reject a token, in the order in which they are tried.
  ghost predicate Outlived(c: Config, t: Claims, now: Ticks) {
    && c.verifyExp && t.exp.Some?
    && t.exp.value + c.leeway <= Seconds(now)
    && (c.acceptsAtExpiry ==> t.exp.value + c.leeway < Seconds(now))
  }

  ghost predicate WrongKind(t: Claims, expected: Option<TokenKind>) {
    expected.Some? && t.kind != expected.value
  }

  // The blocklist after a revocation: a token that is past its expiry is not blocked any more.
  ghost predicate RevokesTo(before: Entries, t: Claims, now: Ticks, after: Entries) {
    match (t.jti, t.exp)
    case (None, _) => after == before
    case (Some(j), None) => after == before[j := None]
    case (Some(j), Some(exp)) =>
      if exp <= Seconds(now) then after == before
      else after == before[j := Some(now + (exp - Seconds(now)) * TICKS_PER_SECOND)]
  }

  class JwtHandler {
    const config: Config
    const blocklist: InMemoryBlocklist?

    constructor (config: Config, blocklist: InMemoryBlocklist?)
      ensures this.config == config && this.blocklist == blocklist
    {
      this.config := config;
      this.blocklist := blocklist;
    }

    method CreateToken(claims: Claims, kind: TokenKind, duration: Ticks, now: Ticks, jti: string)
      returns (token: Claims)
      ensures token == Stamped(config, claims, kind, duration, now, jti)
      ensures IssuedFor(config, token, kind, duration, now, jti) && SameIdentity(token, claims)
      ensures token.email == claims.email && token.name == claims.name
    {
      var exp := now + duration;
      token := claims;
      token := token.(kind := kind);
      token := token.(iss := Some(config.issuer), aud := Some(config.audience));
      token := token.(iat := Some(Seconds(now)), nbf := Some(Seconds(now)));
      token := token.(exp := Some(Seconds(exp)), jti := Some(jti));
    }

    method CreateAccessToken(claims: Claims, now: Ticks, jti: string) returns (token: Claims)
      ensures token == Minted(config, claims, Access, now, jti)
      ensures IssuedFor(config, token, Access, config.accessDuration, now, jti) && SameIdentity(token, claims)
    {
      token := CreateToken(claims, Access, config.accessDuration, now, jti);
    }

    method CreateRefreshToken(claims: Claims, now: Ticks, jti: string) returns (token: Claims)
      ensures token == Minted(config, claims, Refresh, now, jti)
      ensures IssuedFor(config, token, Refresh, config.refreshDuration, now, jti) && SameIdentity(token, claims)
    {
      token := CreateToken(claims, Refresh, config.refreshDuration, now, jti);
    }

    // Each token with the lifetime of its kind.
    method CreateTokenPair(claims: Claims, now: Ticks, accessJti: string, refreshJti: string) returns (pair: Pair)
      ensures pair == MintedPair(config, claims, now, accessJti, refreshJti)
      ensures IssuedFor(config, pair.access, Access, config.accessDuration, now, accessJti)
      ensures IssuedFor(config, pair.refresh, Refresh, config.refreshDuration, now, refreshJti)
      ensures SameIdentity(pair.access, claims) && SameIdentity(pair.refresh, claims)
    {
      var access := CreateAccessToken(claims, now, accessJti);
      var refresh := CreateRefreshToken(claims, now, refreshJti);
      pair := Pair(access, refresh);
    }

    // Accepts exactly the tokens without a reason to reject, and otherwise gives the first reason.
    method VerifyTokenAsync(token: Claims, expected: Option<TokenKind>, now: Ticks)
      returns (r: Result<Claims, AuthError>)
      ensures r == if blocklist == null then Verified(config, token, expected, now)
                   else VerifiedAsync(config, blocklist.entries, token, expected, now)
      ensures var wrongIssuer, wrongAudience :=
          token.iss != Some(config.issuer), config.verifyAud && token.aud != Some(config.audience);
        var revoked := blocklist != null && token.jti.Some? && token.jti.value in blocklist.entries &&
          (blocklist.entries[token.jti.value].None? || now < blocklist.entries[token.jti.value].value);
        && (token.exp.None? <==> r == Err(MissingExpiry))
        && (token.exp.Some? && Outlived(config, token, now) <==> r == Err(Expired))
        && (token.exp.Some? && !Outlived(config, token, now) ==>
              if wrongIssuer then r == Err(WrongIssuer)
              else if wrongAudience then r == Err(WrongAudience)
              else if WrongKind(token, expected) then r == Err(TypeMismatch)
              else if revoked then r == Err(Revoked)
              else r == Ok(token))
    {
      r := Verified(config, token, expected, now);
      if r.Ok? && blocklist != null && token.jti.Some? {
        var blocked := blocklist.IsBlocked(token.jti.value, now);
        if blocked {
          r := Err(Revoked);
        }
      }
    }

    // Reads any claims, without verifying them.
    method RevokeToken(token: Claims, now: Ticks) returns (done: bool)
      modifies blocklist
      ensures done <==> blocklist != null && token.jti.Some?
      ensures blocklist != null ==> (blocklist.entries, done) == RevokedEntries(old(blocklist.entries), token, now)
      ensures blocklist != null ==> RevokesTo(old(blocklist.entries), token, now, blocklist.entries)
    {
      if blocklist == null || token.jti.None? {
        return false;
      }
      var ttl := Remaining(token, now);
      if ttl == Some(0) {
        return true;
      }
      blocklist.Block(token.jti.value, ttl, now);
      return true;
    }

    // A verified refresh token is traded for a pair of the same identity, and revoked.
    method RefreshTokens(token: Claims, now: Ticks, accessJti: string, refreshJti: string)
      returns (r: Result<Pair, AuthError>)
      modifies blocklist
      ensures var v := if blocklist == null then Verified(config, token, Some(Refresh), now)
                       else VerifiedAsync(config, old(blocklist.entries), token, Some(Refresh), now);
        && r == (if v.Err? then Err(v.error) else Ok(Refreshed(config, token, now, accessJti, refreshJti)))
        && (blocklist != null ==>
              blocklist.entries ==
                (if v.Err? then old(blocklist.entries) else RevokedEntries(old(blocklist.entries), token, now).0))
      ensures r.Ok? ==> token.kind == Refresh
      ensures r.Ok? ==> SameIdentity(r.value.access, token) && SameIdentity(r.value.refresh, token)
      ensures r.Ok? ==>
        && IssuedFor(config, r.value.access, Access, config.accessDuration, now, accessJti)
        && IssuedFor(config, r.value.refresh, Refresh, config.refreshDuration, now, refreshJti)
      ensures r.Ok? ==> r.value.access.email == None && r.value.access.name == None
      ensures r.Ok? && blocklist != null ==> RevokesTo(old(blocklist.entries), token, now, blocklist.entries)
      ensures r.Err? && blocklist != null ==> blocklist.entries == old(blocklist.entries)
    {
      var v := VerifyTokenAsync(token, Some(Refresh), now);
      if v.Err? {
        return Err(v.error);
      }
      var _ := RevokeToken(token, now);
      var pair := CreateTokenPair(Carried(v.value), now, accessJti, refreshJti);
      return Ok(pair);
    }
  }
}
