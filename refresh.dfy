/**
 * The pure part of the "new access token from refresh token" handler
 * (refreshAccessToken in src/v1/token.go): strip a leading "Bearer" and one
 * whitespace character from the Authorization header, verify what remains as
 * a refresh token, and only then mint an access token. The HTTP responses
 * the handler writes are represented by the failure kinds below.
 */
module Refresh {
  import opened Wrappers
  import opened Codec
  import opened Tokens

  /** RE2's `\s`: tab, line feed, form feed, carriage return and space (not vertical tab). */
  predicate IsRe2Space(c: char)
  {
    c == '\t' || c == '\n' || c == '\U{000C}' || c == '\r' || c == ' '
  }

  /** The header matches `^Bearer\s`. */
  predicate HasBearerPrefix(header: string)
  {
    |header| >= 7 && header[..6] == "Bearer" && IsRe2Space(header[6])
  }

  /** `^Bearer\s` matches exactly the headers that start with "Bearer" and one RE2 whitespace character. */
  lemma BearerPrefixShape(header: string)
    ensures HasBearerPrefix(header) <==> exists ws :: IsRe2Space(ws) && "Bearer" + [ws] <= header
  {
    if HasBearerPrefix(header) {
      assert "Bearer" + [header[6]] == header[..7];
    }
    if ws :| IsRe2Space(ws) && "Bearer" + [ws] <= header {
      assert header[..7] == "Bearer" + [ws];
      assert header[..6] == header[..7][..6];
    }
  }

  /**
   * Removes the match of `^Bearer\s`, if any. The pattern is anchored at the
   * start of the text, so at most the first seven characters go, once; any
   * other header comes back unchanged.
   */
  function StripBearer(header: string): (r: string)
    ensures |r| <= |header| && header[|header| - |r|..] == r
    ensures r != header <==> HasBearerPrefix(header)
    ensures r != header ==> |header| - |r| == 7
  {
    if HasBearerPrefix(header) then header[7..] else header
  }

  /** "Bearer", one whitespace character and a token strip to exactly the token. */
  lemma StripBearerPrefixed(ws: char, token: string)
    requires IsRe2Space(ws)
    ensures StripBearer("Bearer" + [ws] + token) == token
  {
    var h := "Bearer" + [ws] + token;
    assert h[..6] == "Bearer" && h[6] == ws && h[7..] == token;
  }

  /** How the handler fails: 401 for a refresh token that does not verify, 500 when minting fails. */
  datatype RefreshFailure =
    | InvalidRefreshToken(cause: TokenError)
    | GenerationFailed(cause: TokenError)

  /**
   * Verify, then issue. Any verification failure is reported as an invalid
   * refresh token and mints nothing, whatever the secret; an access token is
   * minted exactly when the stripped header verifies as a refresh token and
   * the secret is not empty, and it then carries fresh access claims.
   */
  function RefreshAccessToken(secret: seq<byte>, authHeader: string, now: int): (r: Result<string, RefreshFailure>)
    ensures var v := VerifyRefreshToken(secret, StripBearer(authHeader), now);
      && (v.Fail? ==> r == Err(InvalidRefreshToken(v.error)))
      && (v.Pass? && |secret| == 0 ==> r == Err(GenerationFailed(EmptySecret)))
      && (r.Ok? <==> v.Pass? && |secret| > 0)
      && (r.Err? && r.error.GenerationFailed? ==> r.error.cause == EmptySecret)
    ensures r.Ok? ==> Parse(secret, r.value) == Some(AccessClaims(now))
  {
    var refreshToken := StripBearer(authHeader);
    match VerifyRefreshToken(secret, refreshToken, now)
    case Fail(e) => Err(InvalidRefreshToken(e))
    case Pass =>
      match GenerateAccessToken(secret, now)
      case Err(e) => Err(GenerationFailed(e))
      case Ok(accessToken) => Ok(accessToken)
  }

  /**
   * The handler as the Go code is written: the verifier panics on a stripped
   * header that is not three segments (None), which the server's recovery
   * middleware answers with a 500 instead of the handler's 401.
   */
  function RefreshAccessTokenAsWritten(secret: seq<byte>, authHeader: string, now: int)
    : (r: Option<Result<string, RefreshFailure>>)
    ensures r.None? <==> !ThreeSegments(StripBearer(authHeader))
    ensures r.Some? ==> r.value == RefreshAccessToken(secret, authHeader, now)
    ensures r.None? ==> RefreshAccessToken(secret, authHeader, now) == Err(InvalidRefreshToken(InvalidToken))
  {
    match VerifyAsWritten(Refresh, secret, StripBearer(authHeader), now)
    case None => None
    case Some(_) => Some(RefreshAccessToken(secret, authHeader, now))
  }

  /** As written, a request without an Authorization header (an empty one) panics, and so does a bare "Bearer ". */
  lemma MissingHeaderPanics(secret: seq<byte>, now: int)
    ensures RefreshAccessTokenAsWritten(secret, "", now) == None
    ensures RefreshAccessTokenAsWritten(secret, "Bearer ", now) == None
  {
    assert StripBearer("") == "";
    assert "Bearer "[..6] == "Bearer";
    assert StripBearer("Bearer ") == "";
    MalformedTokenPanics(Refresh, secret, now);
  }

  /** As intended, and as modelled: a missing header, or one of fewer than three segments, is an invalid refresh token. */
  lemma MissingHeaderUnauthorized(secret: seq<byte>, authHeader: string, now: int)
    requires !ThreeSegments(StripBearer(authHeader))
    ensures RefreshAccessToken(secret, authHeader, now) == Err(InvalidRefreshToken(InvalidToken))
  {
    MalformedTokenInvalid(secret, StripBearer(authHeader), now);
  }

  /** An access token minted at a positive time verifies from then until the second before it expires. */
  lemma RefreshedTokenVerifies(secret: seq<byte>, authHeader: string, now: int, later: int)
    requires RefreshAccessToken(secret, authHeader, now).Ok?
    requires now > 0 && now <= later < now + AccessLifetime
    ensures VerifyAccessToken(secret, RefreshAccessToken(secret, authHeader, now).value, later) == Pass
  {
  }

  /**
   * The order is observable: with an empty secret, a refresh token signed
   * under that empty secret (one that parses under it to fresh refresh
   * claims) still verifies, and only the access token generator's
   * empty-secret guard then fails.
   */
  lemma EmptySecretFailsAfterVerify(ws: char, token: string, issued: int, now: int)
    requires IsRe2Space(ws) && issued > 0 && issued <= now
    requires Parse([], token) == Some(RefreshClaims(issued))
    ensures RefreshAccessToken([], "Bearer" + [ws] + token, now) == Err(GenerationFailed(EmptySecret))
  {
    StripBearerPrefixed(ws, token);
    FreshRefreshClaimsVerdicts([], token, issued, now);
  }

  /**
   * The whole lifecycle: tokens issued at t0 > 0; the access token verifies
   * at t0 and is refused at t1, more than ten minutes later; the refresh token
   * still verifies at t1 and, presented as "Bearer <token>", mints a new
   * access token that verifies at t1.
   */
  lemma Lifecycle(secret: seq<byte>, t0: int, t1: int)
    requires |secret| > 0 && t0 > 0 && t1 > t0 + AccessLifetime
    ensures var access := GenerateAccessToken(secret, t0).value;
      && VerifyAccessToken(secret, access, t0) == Pass
      && VerifyAccessToken(secret, access, t1) == Fail(InvalidToken)
    ensures var refresh := GenerateRefreshToken(secret, t0).value;
      && VerifyRefreshToken(secret, refresh, t1) == Pass
      && RefreshAccessToken(secret, "Bearer " + refresh, t1).Ok?
      && VerifyAccessToken(secret, RefreshAccessToken(secret, "Bearer " + refresh, t1).value, t1) == Pass
  {
    AccessRoundTrip(secret, t0, t0);
    AccessExpires(secret, t0, t1);
    RefreshRoundTrip(secret, t0, t1);
    RefreshLeg(secret, GenerateRefreshToken(secret, t0).value, t1);
  }

  /**
   * Presenting a refresh token that verifies, as "Bearer" plus one whitespace
   * and the token, mints an access token under a non-empty secret.
   */
  lemma BearerRefreshMints(secret: seq<byte>, ws: char, token: string, now: int)
    requires |secret| > 0 && IsRe2Space(ws)
    requires VerifyRefreshToken(secret, token, now) == Pass
    ensures RefreshAccessToken(secret, "Bearer" + [ws] + token, now).Ok?
  {
    StripBearerPrefixed(ws, token);
  }

  /** A verifying refresh token presented as "Bearer <token>" mints an access token that verifies at once. */
  lemma RefreshLeg(secret: seq<byte>, refresh: string, now: int)
    requires |secret| > 0 && now > 0
    requires VerifyRefreshToken(secret, refresh, now) == Pass
    ensures RefreshAccessToken(secret, "Bearer " + refresh, now).Ok?
    ensures VerifyAccessToken(secret, RefreshAccessToken(secret, "Bearer " + refresh, now).value, now) == Pass
  {
    var header := "Bearer " + refresh;
    assert header[..6] == "Bearer" && header[6] == ' ' && header[7..] == refresh;
    RefreshedTokenVerifies(secret, "Bearer " + refresh, now, now);
  }
}
