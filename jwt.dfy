/**
 * The authentication decisions of backend/internal/api/jwt.go: which paths
 * skip authentication, how the bearer token is taken from the
 * `Authorization` header, how the `sub` claim becomes a user id, and the
 * claims `MakeJWT` issues.
 *
 * `jwt.Parse` with its signature check is an oracle (`parse`): it returns
 * whether parsing succeeded, whether the token is valid, whether its claims
 * are a claims map, and that map. Clock readings are nanoseconds since the
 * Unix epoch.
 */
module Jwt {
  import opened Wrappers
  import opened GoStrings
  import Handlers

  const LoginPath := "/api/auth/login"
  const HealthPath := "/healthz"
  const BearerPrefix := "Bearer "

  /** Paths served without a token: login, health, and every stream or thumbnail route. */
  predicate IsPublicPath(path: string) {
    path == LoginPath || path == HealthPath || HasSuffix(path, "/stream") || HasSuffix(path, "/thumb")
  }

  /** Any path ending in `/stream` or `/thumb` is public, whatever precedes it. */
  lemma PublicSuffixes(prefix: string)
    ensures IsPublicPath(prefix + "/stream")
    ensures IsPublicPath(prefix + "/thumb")
  {
    assert (prefix + "/stream")[|prefix + "/stream"| - 7..] == "/stream";
    assert (prefix + "/thumb")[|prefix + "/thumb"| - 6..] == "/thumb";
  }

  /** The thumbnail links handed out with folder listings lead to public paths, so images load without a header. */
  lemma ThumbUrlIsPublic(id: int, thumb: string)
    requires thumb != ""
    ensures IsPublicPath(Handlers.ThumbUrl(id, thumb).value)
  {
    PublicSuffixes("/api/items/" + IntToDecimal(id));
    assert "/api/items/" + IntToDecimal(id) + "/thumb" == ("/api/items/" + IntToDecimal(id)) + "/thumb";
  }

  /** The token of an `Authorization` header of the form `Bearer <token>`; none otherwise. */
  function BearerToken(header: string): (r: Option<string>)
    ensures r.Some? <==> BearerPrefix <= header
    ensures r.Some? ==> header == BearerPrefix + r.value
  {
    if header == "" || !(BearerPrefix <= header) then None else Some(TrimPrefix(header, BearerPrefix))
  }

  /** Reading back the header built from a token gives the token. */
  lemma BearerRoundTrip(token: string)
    ensures BearerToken(BearerPrefix + token) == Some(token)
  {
    assert BearerPrefix <= BearerPrefix + token;
  }

  /** A claim value after JSON decoding: a number (float64), an int64, or any other type. */
  datatype Claim = FloatClaim(f: real) | IntClaim(i: int) | OtherClaim

  datatype ParsedToken = ParseFailed | Parsed(valid: bool, isMapClaims: bool, claims: map<string, Claim>)

  datatype AuthResult = Public | Authenticated(userId: int) | Unauthorized(message: string)

  /** Go's conversion of a float64 to an integer: the fraction is dropped, toward zero. */
  function TruncateTowardZero(f: real): (r: int)
    ensures f >= 0.0 ==> 0 <= r && r as real <= f < r as real + 1.0
    ensures f < 0.0 ==> r <= 0 && r as real - 1.0 < f <= r as real
  {
    if f >= 0.0 then f.Floor else -((-f).Floor)
  }

  /** A whole number converts to itself. */
  lemma TruncateWhole(n: int)
    ensures TruncateTowardZero(n as real) == n
  {
  }

  /** The type switch on `sub`: a number is truncated to a user id, an int64 taken as is, anything else refused. */
  function SubUserId(sub: Claim): (r: Option<int>)
    ensures r.None? <==> sub.OtherClaim?
    ensures sub.IntClaim? ==> r == Some(sub.i)
    ensures sub.FloatClaim? ==> r == Some(TruncateTowardZero(sub.f))
  {
    match sub
    case FloatClaim(f) => Some(TruncateTowardZero(f))
    case IntClaim(i) => Some(i)
    case OtherClaim => None
  }

  /** The middleware's decision for a request to `path` with the given `Authorization` header. */
  function Authenticate(path: string, header: string, parse: string -> ParsedToken): AuthResult {
    if IsPublicPath(path) then Public
    else
      match BearerToken(header)
      case None => Unauthorized("missing bearer token")
      case Some(token) =>
        match parse(token)
        case ParseFailed => Unauthorized("invalid token")
        case Parsed(valid, isMapClaims, claims) =>
          if !valid then Unauthorized("invalid token")
          else if !isMapClaims then Unauthorized("invalid claims")
          else if "sub" !in claims then Unauthorized("missing sub")
          else
            match SubUserId(claims["sub"])
            case None => Unauthorized("bad sub type")
            case Some(uid) => Authenticated(uid)
  }

  /** Public paths pass without looking at the header or the token. */
  lemma PublicPathsPass(path: string, header: string, parse: string -> ParsedToken)
    ensures Authenticate(path, header, parse) == Public <==> IsPublicPath(path)
    ensures Authenticate(LoginPath, header, parse) == Public
    ensures Authenticate(HealthPath, header, parse) == Public
  {
  }

  /** A non-public request without a `Bearer ` header is refused before any token is parsed. */
  lemma MissingBearerRefused(path: string, header: string, parse: string -> ParsedToken)
    requires !IsPublicPath(path) && !(BearerPrefix <= header)
    ensures Authenticate(path, header, parse) == Unauthorized("missing bearer token")
  {
  }

  /**
   * A request is authenticated only with a `Bearer ` header whose token
   * parses, is valid, has a claims map and a `sub` claim of a number type,
   * and the user id is that claim's value.
   */
  lemma AuthenticatedOnlyWithValidSub(path: string, header: string, parse: string -> ParsedToken)
    ensures Authenticate(path, header, parse).Authenticated? <==>
      && !IsPublicPath(path)
      && BearerPrefix <= header
      && var t := parse(header[|BearerPrefix|..]);
         t.Parsed? && t.valid && t.isMapClaims && "sub" in t.claims && !t.claims["sub"].OtherClaim?
    ensures Authenticate(path, header, parse).Authenticated? ==>
      Some(Authenticate(path, header, parse).userId) == SubUserId(parse(header[|BearerPrefix|..]).claims["sub"])
  {
  }

  // ---------------------------------------------------------------------
  // MakeJWT

  const NanosPerSecond := 1_000_000_000
  const TokenLifetime := 7 * 24 * 3600

  /** `Time.Unix`: whole seconds since the epoch, rounded down. */
  function UnixSeconds(nanos: int): int {
    nanos / NanosPerSecond
  }

  datatype IssuedClaims = IssuedClaims(sub: int, exp: int, iat: int)

  /**
   * The claims of `MakeJWT`: `exp` from a first clock reading plus seven
   * days, `iat` from a second reading.
   */
  function Issue(userId: int, firstNow: int, secondNow: int): IssuedClaims {
    IssuedClaims(userId, UnixSeconds(firstNow + TokenLifetime * NanosPerSecond), UnixSeconds(secondNow))
  }

  /**
   * The expiry is never more than seven days after the issue time, since the
   * second reading is never earlier than the first; it is exactly seven days
   * when both readings fall in the same second, and at least seven days less
   * one second when they are under a second apart.
   */
  lemma ExpiryOneWeek(userId: int, firstNow: int, secondNow: int)
    requires firstNow <= secondNow
    ensures var c := Issue(userId, firstNow, secondNow);
      && c.exp - c.iat <= TokenLifetime
      && (UnixSeconds(firstNow) == UnixSeconds(secondNow) ==> c.exp - c.iat == TokenLifetime)
      && (secondNow - firstNow < NanosPerSecond ==> c.exp - c.iat >= TokenLifetime - 1)
  {
    var q := firstNow / NanosPerSecond;
    assert firstNow + TokenLifetime * NanosPerSecond == (q + TokenLifetime) * NanosPerSecond + firstNow % NanosPerSecond;
    assert UnixSeconds(firstNow + TokenLifetime * NanosPerSecond) == q + TokenLifetime;
  }

  /** The claims once signed and decoded again: JSON numbers come back as float64. */
  function Decoded(c: IssuedClaims): map<string, Claim> {
    map["sub" := FloatClaim(c.sub as real), "exp" := FloatClaim(c.exp as real), "iat" := FloatClaim(c.iat as real)]
  }

  /** A token issued for a user, once verified, authenticates that same user on any protected path. */
  lemma IssuedTokenAuthenticates(path: string, token: string, parse: string -> ParsedToken,
                                 userId: int, firstNow: int, secondNow: int)
    requires !IsPublicPath(path)
    requires parse(token) == Parsed(true, true, Decoded(Issue(userId, firstNow, secondNow)))
    ensures Authenticate(path, BearerPrefix + token, parse) == Authenticated(userId)
  {
    BearerRoundTrip(token);
    TruncateWhole(userId);
  }
}
