/** Token issuance and validation (pkg/auth/jwt.go). An access token and a
    refresh token are HS256 tokens over the same identity, signed with two
    different secrets; their lifetimes come from the environment with
    defaults of 1 hour and 7 days. Validation accepts a token that decodes,
    names an HMAC algorithm, verifies under the given secret and has not
    expired; every other token is an error. */
module Jwt {
  import opened Common
  import opened Numbers
  import opened Uuids
  import opened TokenCodec

  /** The environment variables the token code reads. os.Getenv yields "" for
      an unset variable, so an unset variable and an empty one are the same. */
  datatype Env = Env(
    jwtSecret: string,
    refreshTokenSecret: string,
    accessTokenExpiration: string,
    refreshTokenExpiration: string)

  /** TokenPair: the two token texts and the access lifetime in seconds. */
  datatype TokenPair = TokenPair(accessToken: string, refreshToken: string, expiresIn: int)

  const DefaultAccessHours: int := 1
  const DefaultRefreshHours: int := 24 * 7
  const NanosPerSecond: int := 1_000_000_000
  const NanosPerHour: int := 3600 * NanosPerSecond
  /** The largest lifetime in hours whose nanosecond count fits an int64. */
  const MaxExactHours: int := 2_562_047

  /** An hours setting: its Atoi value, or `default` when it does not parse. */
  function HoursSetting(text: string, default: int): int {
    match Atoi(text)
    case Some(h) => h
    case None => default
  }

  function AccessHours(env: Env): int {
    HoursSetting(env.accessTokenExpiration, DefaultAccessHours)
  }

  function RefreshHours(env: Env): int {
    HoursSetting(env.refreshTokenExpiration, DefaultRefreshHours)
  }

  /** The exp claim of a token issued at `now` (Unix seconds) for `hours`:
      time.Duration(hours) * time.Hour is an int64 nanosecond count that
      wraps, and jwt.NewNumericDate keeps whole seconds. */
  function ExpiryAfter(now: int, hours: int): int {
    now + Wrap64(hours * NanosPerHour) / NanosPerSecond
  }

  function AccessClaims(userId: Uuid, email: string, env: Env, now: int, jti: string): Claims {
    Claims(userId, email, ExpiryAfter(now, AccessHours(env)), now, jti)
  }

  function RefreshClaims(userId: Uuid, email: string, env: Env, now: int, jti: string): Claims {
    Claims(userId, email, ExpiryAfter(now, RefreshHours(env)), now, jti)
  }

  /** GenerateTokenPair. `now` is the issuing instant and `accessId`,
      `refreshId` are the fresh uuid.New() texts used as token ids. */
  function GenerateTokenPair(userId: Uuid, email: string, env: Env, now: int,
                             accessId: string, refreshId: string): (pair: TokenPair)
    ensures Decode(pair.accessToken) ==
              Some(Token(HS256, AccessClaims(userId, email, env, now, accessId), env.jwtSecret))
    ensures Decode(pair.refreshToken) ==
              Some(Token(HS256, RefreshClaims(userId, email, env, now, refreshId), env.refreshTokenSecret))
    ensures IsInt64(pair.expiresIn)
    ensures IsInt64(AccessHours(env) * 3600) ==> pair.expiresIn == AccessHours(env) * 3600
  {
    var access := Token(HS256, AccessClaims(userId, email, env, now, accessId), env.jwtSecret);
    var refresh := Token(HS256, RefreshClaims(userId, email, env, now, refreshId), env.refreshTokenSecret);
    DecodeEncode(access);
    DecodeEncode(refresh);
    TokenPair(Encode(access), Encode(refresh), Wrap64(AccessHours(env) * 3600))
  }

  /** A decoded token that validateToken accepts under `secret` at `now`. */
  predicate Accepts(t: Token, secret: string, now: int) {
    IsHmac(t.alg) && t.signedWith == secret && now < t.claims.expiresAt
  }

  /** validateToken: parse, reject a non-HMAC algorithm in the key function,
      verify the signature, then check exp (valid strictly before it). */
  function ValidateToken(text: string, secret: string, now: int): (r: Result<Claims>)
    ensures r.Ok? <==> Decode(text).Some? && Accepts(Decode(text).value, secret, now)
    ensures r.Ok? ==> r.value == Decode(text).value.claims
  {
    match Decode(text)
    case None => Err("token is malformed")
    case Some(t) =>
      if !IsHmac(t.alg) then Err("unexpected signing method")
      else if t.signedWith != secret then Err("signature is invalid")
      else if !(now < t.claims.expiresAt) then Err("token is expired")
      else Ok(t.claims)
  }

  function ValidateAccessToken(text: string, env: Env, now: int): Result<Claims> {
    ValidateToken(text, env.jwtSecret, now)
  }

  function ValidateRefreshToken(text: string, env: Env, now: int): Result<Claims> {
    ValidateToken(text, env.refreshTokenSecret, now)
  }

  // ---------------------------------------------------------------------------
  // Properties

  /** For a lifetime that fits the nanosecond counter, exp is `hours` hours
      after the issuing instant. */
  lemma ExpiryAfterExact(now: int, hours: int)
    requires -MaxExactHours <= hours <= MaxExactHours
    ensures ExpiryAfter(now, hours) == now + hours * 3600
  {
    var k := hours * 3600;
    assert hours * NanosPerHour == k * NanosPerSecond;
    assert IsInt64(k * NanosPerSecond);
    assert (k * NanosPerSecond) / NanosPerSecond == k;
  }

  /** Without configuration the access token lives one hour (ExpiresIn 3600)
      and the refresh token seven days. */
  lemma UnsetLifetimes(userId: Uuid, email: string, env: Env, now: int, accessId: string, refreshId: string)
    requires env.accessTokenExpiration == "" && env.refreshTokenExpiration == ""
    ensures GenerateTokenPair(userId, email, env, now, accessId, refreshId).expiresIn == 3600
    ensures AccessClaims(userId, email, env, now, accessId).expiresAt == now + 3600
    ensures RefreshClaims(userId, email, env, now, refreshId).expiresAt == now + 7 * 24 * 3600
  {
    ExpiryAfterExact(now, 1);
    ExpiryAfterExact(now, 24 * 7);
  }

  /** An unparsable setting falls back to the default, a parsable one is used as is. */
  lemma LifetimeSettings(env: Env)
    ensures Atoi(env.accessTokenExpiration).None? ==> AccessHours(env) == 1
    ensures Atoi(env.refreshTokenExpiration).None? ==> RefreshHours(env) == 168
    ensures Atoi(env.accessTokenExpiration).Some? ==> AccessHours(env) == Atoi(env.accessTokenExpiration).value
    ensures Atoi(env.refreshTokenExpiration).Some? ==> RefreshHours(env) == Atoi(env.refreshTokenExpiration).value
  {
  }

  /** Within the exact range, the access token expires before the refresh
      token exactly when its configured lifetime is shorter. */
  lemma AccessExpiresFirst(userId: Uuid, email: string, env: Env, now: int, accessId: string, refreshId: string)
    requires -MaxExactHours <= AccessHours(env) <= MaxExactHours
    requires -MaxExactHours <= RefreshHours(env) <= MaxExactHours
    ensures AccessClaims(userId, email, env, now, accessId).expiresAt
              < RefreshClaims(userId, email, env, now, refreshId).expiresAt
            <==> AccessHours(env) < RefreshHours(env)
  {
    ExpiryAfterExact(now, AccessHours(env));
    ExpiryAfterExact(now, RefreshHours(env));
  }

  /** Both tokens of a pair name the same user and email, were issued at the
      same instant, and carry the ids they were given. The model reads the
      clock once, as `now`, for both lifetimes and both issue times; the
      source reads it for each, so the claims of one pair can straddle a
      second boundary and differ by one second. */
  lemma PairSharesIdentity(userId: Uuid, email: string, env: Env, now: int, accessId: string, refreshId: string)
    ensures var pair := GenerateTokenPair(userId, email, env, now, accessId, refreshId);
            var a := Decode(pair.accessToken).value.claims;
            var r := Decode(pair.refreshToken).value.claims;
            a.userId == r.userId == userId && a.email == r.email == email
            && a.issuedAt == r.issuedAt == now && a.id == accessId && r.id == refreshId
  {
  }

  /** An issued access token validates, with exactly the claims it was
      issued with, at every instant before its exp and at none after. */
  lemma AccessTokenRoundTrip(userId: Uuid, email: string, env: Env, now: int,
                             accessId: string, refreshId: string, at: int)
    ensures var pair := GenerateTokenPair(userId, email, env, now, accessId, refreshId);
            var claims := AccessClaims(userId, email, env, now, accessId);
            ValidateAccessToken(pair.accessToken, env, at)
              == if at < claims.expiresAt then Ok(claims) else Err("token is expired")
  {
  }

  /** The same for the refresh token under the refresh secret. */
  lemma RefreshTokenRoundTrip(userId: Uuid, email: string, env: Env, now: int,
                              accessId: string, refreshId: string, at: int)
    ensures var pair := GenerateTokenPair(userId, email, env, now, accessId, refreshId);
            var claims := RefreshClaims(userId, email, env, now, refreshId);
            ValidateRefreshToken(pair.refreshToken, env, at)
              == if at < claims.expiresAt then Ok(claims) else Err("token is expired")
  {
  }

  /** With distinct secrets a refresh token is never accepted as an access
      token, nor an access token as a refresh token. */
  lemma SecretsSeparateKinds(userId: Uuid, email: string, env: Env, now: int,
                             accessId: string, refreshId: string, at: int)
    requires env.jwtSecret != env.refreshTokenSecret
    ensures var pair := GenerateTokenPair(userId, email, env, now, accessId, refreshId);
            ValidateAccessToken(pair.refreshToken, env, at).Err?
            && ValidateRefreshToken(pair.accessToken, env, at).Err?
  {
  }

  /** A token naming a non-HMAC algorithm is rejected whatever its key and claims. */
  lemma NonHmacRejected(t: Token, secret: string, at: int)
    requires !IsHmac(t.alg)
    ensures ValidateToken(Encode(t), secret, at) == Err("unexpected signing method")
  {
    DecodeEncode(t);
  }

  /** A correctly signed token is rejected from its exp instant on. */
  lemma ExpiredRejected(t: Token, secret: string, at: int)
    requires IsHmac(t.alg) && t.signedWith == secret
    requires at >= t.claims.expiresAt
    ensures ValidateToken(Encode(t), secret, at) == Err("token is expired")
  {
    DecodeEncode(t);
  }

  /** A lifetime setting of zero or fewer hours issues access tokens that are
      already expired when they are issued. */
  lemma NonPositiveLifetimeNeverValid(userId: Uuid, email: string, env: Env, now: int,
                                      accessId: string, refreshId: string, at: int)
    requires -MaxExactHours <= AccessHours(env) <= 0
    requires at >= now
    ensures ValidateAccessToken(GenerateTokenPair(userId, email, env, now, accessId, refreshId).accessToken, env, at).Err?
  {
    ExpiryAfterExact(now, AccessHours(env));
  }
}
