/**
 * The token service: issuing and verifying JSON Web Tokens (RFC 7519) signed
 * with HS256 (section 3.2 of RFC 7518), the placeholder login and the
 * `Authorization` header check. The JWT library is a parameter, `Jwt`; the
 * current time is a parameter `now`, in whole seconds.
 */
module Auth {
  import opened Wrappers
  import opened Http

  const SecretKey := "change_this_secret"
  const Algorithm := "HS256"
  const AccessTokenExpireMinutes := 60
  const SecondsPerMinute := 60
  /** The only scheme prefix accepted, compared case-sensitively. */
  const BearerPrefix := "Bearer "

  /**
   * The registered claims the service reads: `sub`, the subject (section
   * 4.1.2 of RFC 7519), and `exp`, the expiry time (section 4.1.4). Either
   * may be missing from a token someone else signed.
   */
  datatype Claims = Claims(sub: Option<string>, exp: Option<int>)

  /**
   * The JWT library: `encode(claims, key, algorithm)` signs claims into a
   * compact token; `checkSignature(token, key, algorithm)` is the part of
   * `decode` that parses the token and checks its signature and algorithm,
   * giving the claims or `None`.
   */
  datatype Jwt = Jwt(
    encode: (Claims, string, string) -> string,
    checkSignature: (string, string, string) -> Option<Claims>)

  /** A correct library: a token it signs reads back, under the same key and algorithm, as the claims signed. */
  ghost predicate Sound(jwt: Jwt) {
    forall c: Claims, key: string, alg: string ::
      jwt.checkSignature(jwt.encode(c, key, alg), key, alg) == Some(c)
  }

  /** The library's expiry rule: a token is expired once `exp <= now`. */
  predicate Expired(exp: int, now: int) {
    exp <= now
  }

  /** Claims that have no expiry, or one still in the future. */
  predicate Live(c: Claims, now: int) {
    c.exp.None? || !Expired(c.exp.value, now)
  }

  /** How `decode` fails: an expired signature, or anything else. */
  datatype DecodeError = ExpiredSignature | InvalidJwt

  /** The library's `decode`: the signature is checked first, the expiry after. */
  function Decode(jwt: Jwt, token: string, key: string, alg: string, now: int): Result<Claims, DecodeError> {
    match jwt.checkSignature(token, key, alg)
    case None => Failure(InvalidJwt)
    case Some(c) => if Live(c, now) then Success(c) else Failure(ExpiredSignature)
  }

  /** Python truthiness of an optional `timedelta`: present and not zero. */
  predicate Truthy(delta: Option<int>) {
    delta.Some? && delta.value != 0
  }

  /** The `exp` of a new token: the token lives for the delta when it is truthy, for 60 minutes otherwise. */
  function ExpiryOf(expiresDelta: Option<int>, now: int): (exp: int)
    ensures Truthy(expiresDelta) ==> exp - now == expiresDelta.value
    ensures !Truthy(expiresDelta) ==> exp - now == 3600
  {
    now + if Truthy(expiresDelta) then expiresDelta.value else AccessTokenExpireMinutes * SecondsPerMinute
  }

  /** A zero delta is falsy, so it gives the default lifetime, not an already expired token. */
  lemma ZeroDeltaMeansDefault(now: int)
    ensures ExpiryOf(Some(0), now) == ExpiryOf(None, now) == now + 3600
  {
  }

  /** `create_access_token`: signs `{sub: subject, exp: ExpiryOf(expiresDelta, now)}`. */
  function CreateAccessToken(jwt: Jwt, subject: string, expiresDelta: Option<int>, now: int): (token: string)
    ensures Sound(jwt) ==>
      jwt.checkSignature(token, SecretKey, Algorithm) == Some(Claims(Some(subject), Some(ExpiryOf(expiresDelta, now))))
  {
    jwt.encode(Claims(Some(subject), Some(ExpiryOf(expiresDelta, now))), SecretKey, Algorithm)
  }

  /**
   * `verify_token`: the subject of a token signed with the service's key,
   * not expired and carrying `sub`. An expired token is refused with
   * "Token expired"; every other failure, a missing `sub` included, with
   * "Invalid token".
   */
  function VerifyToken(jwt: Jwt, token: string, now: int): (r: Result<string, HttpException>)
    ensures var checked := jwt.checkSignature(token, SecretKey, Algorithm);
      r.Success? <==> checked.Some? && Live(checked.value, now) && checked.value.sub.Some?
    ensures var checked := jwt.checkSignature(token, SecretKey, Algorithm);
      r.Success? ==> r.value == checked.value.sub.value
    ensures var checked := jwt.checkSignature(token, SecretKey, Algorithm);
      r == Failure(HttpException(UNAUTHORIZED, "Token expired")) <==> checked.Some? && !Live(checked.value, now)
    ensures r.Failure? ==>
      r.error == HttpException(UNAUTHORIZED, "Token expired") || r.error == HttpException(UNAUTHORIZED, "Invalid token")
  {
    match Decode(jwt, token, SecretKey, Algorithm, now)
    case Failure(ExpiredSignature) => Failure(HttpException(UNAUTHORIZED, "Token expired"))
    case Failure(InvalidJwt) => Failure(HttpException(UNAUTHORIZED, "Invalid token"))
    case Success(payload) =>
      // The exception raised for a missing `sub` is caught by the handler
      // for all other exceptions and raised again with the same detail.
      if payload.sub.None? then Failure(HttpException(UNAUTHORIZED, "Invalid token"))
      else Success(payload.sub.value)
  }

  /** A freshly issued token verifies to its subject until it expires. */
  lemma IssueThenVerify(jwt: Jwt, subject: string, expiresDelta: Option<int>, now: int, later: int)
    requires Sound(jwt)
    requires later < ExpiryOf(expiresDelta, now)
    ensures VerifyToken(jwt, CreateAccessToken(jwt, subject, expiresDelta, now), later) == Success(subject)
  {
  }

  /** From its expiry on, an issued token is refused as expired. */
  lemma IssuedTokenExpires(jwt: Jwt, subject: string, expiresDelta: Option<int>, now: int, later: int)
    requires Sound(jwt)
    requires ExpiryOf(expiresDelta, now) <= later
    ensures VerifyToken(jwt, CreateAccessToken(jwt, subject, expiresDelta, now), later)
         == Failure(HttpException(UNAUTHORIZED, "Token expired"))
  {
  }

  /** Body of a login request. */
  datatype UserLogin = UserLogin(username: string, password: string)

  /** Body of a successful login. */
  datatype TokenResponse = TokenResponse(accessToken: string, tokenType: string)

  /**
   * `login`: succeeds exactly when username and password are non-empty and
   * equal, with a bearer token for the username of the default lifetime;
   * otherwise 401 "Invalid credentials".
   */
  function Login(jwt: Jwt, data: UserLogin, now: int): (r: Result<TokenResponse, HttpException>)
    ensures r.Success? <==> data.username != "" && data.password != "" && data.username == data.password
    ensures r.Failure? ==> r.error == HttpException(UNAUTHORIZED, "Invalid credentials")
    ensures r.Success? ==> r.value.tokenType == "bearer"
    ensures r.Success? && Sound(jwt) ==>
      jwt.checkSignature(r.value.accessToken, SecretKey, Algorithm)
        == Some(Claims(Some(data.username), Some(now + AccessTokenExpireMinutes * SecondsPerMinute)))
  {
    if data.username != "" && data.password != "" && data.username == data.password then
      Success(TokenResponse(CreateAccessToken(jwt, data.username, None, now), "bearer"))
    else
      Failure(HttpException(UNAUTHORIZED, "Invalid credentials"))
  }

  /** Python's `s.startswith(prefix)`. */
  predicate StartsWith(s: string, prefix: string) {
    |prefix| <= |s| && s[..|prefix|] == prefix
  }

  /** Python's `s.find(c)`: the first position of `c` in `s`, or -1. */
  function IndexOf(s: string, c: char): (i: int)
    ensures -1 <= i < |s|
    ensures 0 <= i ==> s[i] == c && forall j :: 0 <= j < i ==> s[j] != c
    ensures i == -1 ==> forall j :: 0 <= j < |s| ==> s[j] != c
  {
    if s == [] then -1
    else if s[0] == c then 0
    else
      var k := IndexOf(s[1..], c);
      if k == -1 then -1 else k + 1
  }

  /**
   * Python's `s.split(sep, 1)`: without `sep`, just `s`; otherwise the part
   * before the first `sep` and everything after it, which rejoin to `s`.
   */
  function SplitOnce(s: string, sep: char): (parts: seq<string>)
    ensures |parts| == 1 <==> sep !in s
    ensures |parts| == 1 ==> parts[0] == s
    ensures |parts| != 1 ==> |parts| == 2 && sep !in parts[0] && parts[0] + [sep] + parts[1] == s
  {
    var i := IndexOf(s, sep);
    if i == -1 then [s] else [s[..i], s[i + 1..]]
  }

  /** A header that starts with "Bearer " splits into "Bearer" and everything after the prefix. */
  lemma BearerSplit(header: string)
    requires StartsWith(header, BearerPrefix)
    ensures SplitOnce(header, ' ') == ["Bearer", header[|BearerPrefix|..]]
  {
    var i := IndexOf(header, ' ');
    assert header[6] == ' ';
    assert forall j :: 0 <= j < 6 ==> header[j] == BearerPrefix[j] != ' ';
    assert i == 6;
    assert header[..6] == BearerPrefix[..6] == "Bearer";
  }

  /**
   * `require_auth`: a missing or empty header, or one that does not start
   * with exactly "Bearer ", is refused with 401 "Missing or invalid
   * Authorization header"; otherwise the rest of the header after the
   * prefix is verified as a token.
   */
  function RequireAuth(jwt: Jwt, authorization: Option<string>, now: int): (r: Result<string, HttpException>)
    ensures authorization.None? || !StartsWith(authorization.value, BearerPrefix) ==>
      r == Failure(HttpException(UNAUTHORIZED, "Missing or invalid Authorization header"))
    ensures authorization.Some? && StartsWith(authorization.value, BearerPrefix) ==>
      r == VerifyToken(jwt, authorization.value[|BearerPrefix|..], now)
  {
    if authorization.None? || authorization.value == "" || !StartsWith(authorization.value, BearerPrefix) then
      Failure(HttpException(UNAUTHORIZED, "Missing or invalid Authorization header"))
    else
      BearerSplit(authorization.value);
      var token := SplitOnce(authorization.value, ' ')[1];
      VerifyToken(jwt, token, now)
  }

  /** The scheme name is case-sensitive: "bearer " is refused whatever follows. */
  lemma LowerCaseSchemeRefused(jwt: Jwt, token: string, now: int)
    ensures RequireAuth(jwt, Some("bearer " + token), now)
         == Failure(HttpException(UNAUTHORIZED, "Missing or invalid Authorization header"))
  {
    assert ("bearer " + token)[0] != BearerPrefix[0];
  }

  /** A token from a successful login is accepted as a bearer token for the username until it expires. */
  lemma LoginThenRequireAuth(jwt: Jwt, username: string, now: int, later: int)
    requires Sound(jwt)
    requires username != ""
    requires later < now + AccessTokenExpireMinutes * SecondsPerMinute
    ensures Login(jwt, UserLogin(username, username), now).Success?
    ensures RequireAuth(jwt, Some(BearerPrefix + Login(jwt, UserLogin(username, username), now).value.accessToken), later)
         == Success(username)
  {
    var token := Login(jwt, UserLogin(username, username), now).value.accessToken;
    assert (BearerPrefix + token)[..|BearerPrefix|] == BearerPrefix;
    assert (BearerPrefix + token)[|BearerPrefix|..] == token;
    IssueThenVerify(jwt, username, None, now, later);
  }
}
