/**
 * Issuing and verifying the admin user's access and refresh tokens
 * (src/v1/token.go). Time is a parameter: `now` is the current Unix time in
 * seconds, which the Go code and the JWT library read from the clock.
 */
module Tokens {
  import opened Wrappers
  import opened Codec
  import Text

  const Issuer := "admin.rest-cms"
  const AccessSubject := "acc"
  const RefreshSubject := "ref"

  /** Lifetime of an access token in seconds (ten minutes). */
  const AccessLifetime := 600

  /** Every way issuing or verifying can fail; Go reports each as an error value. */
  datatype TokenError =
    | EmptySecret
    | InvalidToken
    | Expired(delta: int)   // seconds since the expiry time
    | UsedBeforeIssued
    | InvalidIssuer
    | WrongRole

  /** The two token kinds, told apart only by their subject claim. */
  datatype Role = Access | Refresh
  {
    function Subject(): string
    {
      if this == Access then AccessSubject else RefreshSubject
    }
  }

  // ---------------------------------------------------------------------------
  // The JWT library's claim validators. token.go calls them with
  // required = true; the library's own validation while parsing calls the
  // time validators with required = false. An absent claim (zero or empty)
  // passes exactly when it is not required.
  // ---------------------------------------------------------------------------

  /** Not expired: a present expiry is valid up to and including its own second. */
  predicate VerifyExpiresAt(c: Claims, now: int, required: bool)
  {
    if c.exp == 0 then !required else now <= c.exp
  }

  /** Issued at or before now. */
  predicate VerifyIssuedAt(c: Claims, now: int, required: bool)
  {
    if c.iat == 0 then !required else c.iat <= now
  }

  /** Not before: valid from the not-before second on. */
  predicate VerifyNotBefore(c: Claims, now: int, required: bool)
  {
    if c.nbf == 0 then !required else c.nbf <= now
  }

  /** The issuer is exactly cmp. */
  predicate VerifyIssuer(c: Claims, cmp: string, required: bool)
  {
    if c.iss == "" then !required else c.iss == cmp
  }

  /**
   * The library's own validation of the standard claims, which parsing runs
   * after decoding: each time claim, if present, must hold now.
   */
  predicate StandardClaimsValid(c: Claims, now: int)
  {
    VerifyExpiresAt(c, now, false) && VerifyIssuedAt(c, now, false) && VerifyNotBefore(c, now, false)
  }

  /**
   * The expiry check closes at the expiry second: once it fails it fails at
   * every later time; requiring the claim only adds the absent case to the
   * failures; a present expiry passes at its own second and fails one later.
   */
  lemma ExpiresAtProperties(c: Claims, t1: int, t2: int, required: bool)
    requires t1 <= t2
    ensures VerifyExpiresAt(c, t2, required) ==> VerifyExpiresAt(c, t1, required)
    ensures VerifyExpiresAt(c, t1, true) ==> VerifyExpiresAt(c, t1, false)
    ensures VerifyExpiresAt(c, t1, false) && !VerifyExpiresAt(c, t1, true) <==> c.exp == 0
    ensures c.exp != 0 ==> VerifyExpiresAt(c, c.exp, required) && !VerifyExpiresAt(c, c.exp + 1, required)
  {
  }

  /**
   * The issued-at and not-before checks open at their second: once they pass
   * they pass at every later time; requiring the claim only adds the absent
   * case to the failures; a present claim fails one second before it and
   * passes at it.
   */
  lemma IssuedAtProperties(c: Claims, t1: int, t2: int, required: bool)
    requires t1 <= t2
    ensures VerifyIssuedAt(c, t1, required) ==> VerifyIssuedAt(c, t2, required)
    ensures VerifyNotBefore(c, t1, required) ==> VerifyNotBefore(c, t2, required)
    ensures VerifyIssuedAt(c, t1, false) && !VerifyIssuedAt(c, t1, true) <==> c.iat == 0
    ensures VerifyNotBefore(c, t1, false) && !VerifyNotBefore(c, t1, true) <==> c.nbf == 0
    ensures c.iat != 0 ==> VerifyIssuedAt(c, c.iat, required) && !VerifyIssuedAt(c, c.iat - 1, required)
    ensures c.nbf != 0 ==> VerifyNotBefore(c, c.nbf, required) && !VerifyNotBefore(c, c.nbf - 1, required)
  {
  }

  /** A required issuer check passes exactly on the expected issuer, when that is not empty. */
  lemma IssuerProperties(c: Claims, cmp: string)
    requires cmp != ""
    ensures VerifyIssuer(c, cmp, true) <==> c.iss == cmp
    ensures VerifyIssuer(c, cmp, true) ==> VerifyIssuer(c, cmp, false)
  {
  }

  // ---------------------------------------------------------------------------
  // Issuing.
  // ---------------------------------------------------------------------------

  function AccessClaims(now: int): Claims
  {
    Claims(iat := now, exp := now + AccessLifetime, nbf := 0, iss := Issuer, sub := AccessSubject)
  }

  /** A refresh token has no expiry claim. */
  function RefreshClaims(now: int): Claims
  {
    Claims(iat := now, exp := 0, nbf := 0, iss := Issuer, sub := RefreshSubject)
  }

  /**
   * An access token for the admin user. An empty secret is refused before
   * anything is signed; otherwise the token is an HS256 token whose claims are
   * exactly: issued now, expiring ten minutes later, this issuer, subject "acc".
   */
  function GenerateAccessToken(secret: seq<byte>, now: int): (r: Result<string, TokenError>)
    ensures r.Err? <==> |secret| == 0
    ensures r.Err? ==> r.error == EmptySecret
    ensures r.Ok? ==> HeaderAlg(r.value) == Some(HS256)
    ensures r.Ok? ==> Parse(secret, r.value) == Some(Claims(now, now + 600, 0, "admin.rest-cms", "acc"))
  {
    if |secret| == 0 then Err(EmptySecret)
    else
      ParseSign(HS256, secret, AccessClaims(now));
      Ok(Sign(HS256, secret, AccessClaims(now)))
  }

  /**
   * A refresh token for the admin user: as an access token, but with subject
   * "ref" and no expiry claim at all.
   */
  function GenerateRefreshToken(secret: seq<byte>, now: int): (r: Result<string, TokenError>)
    ensures r.Err? <==> |secret| == 0
    ensures r.Err? ==> r.error == EmptySecret
    ensures r.Ok? ==> HeaderAlg(r.value) == Some(HS256)
    ensures r.Ok? ==> Parse(secret, r.value) == Some(Claims(now, 0, 0, "admin.rest-cms", "ref"))
  {
    if |secret| == 0 then Err(EmptySecret)
    else
      ParseSign(HS256, secret, RefreshClaims(now));
      Ok(Sign(HS256, secret, RefreshClaims(now)))
  }

  // ---------------------------------------------------------------------------
  // Verifying.
  // ---------------------------------------------------------------------------

  /** The claims an access token must carry to be accepted at time now. */
  predicate AccessAcceptable(c: Claims, now: int)
  {
    && c.exp != 0 && now <= c.exp
    && c.iat != 0 && c.iat <= now
    && (c.nbf == 0 || c.nbf <= now)
    && c.iss == Issuer && c.sub == AccessSubject
  }

  /**
   * The claims a refresh token must carry to be accepted at time now: it may
   * lack an expiry, but one it carries must not have passed.
   */
  predicate RefreshAcceptable(c: Claims, now: int)
  {
    && (c.exp == 0 || now <= c.exp)
    && c.iat != 0 && c.iat <= now
    && (c.nbf == 0 || c.nbf <= now)
    && c.iss == Issuer && c.sub == RefreshSubject
  }

  /**
   * The check sequence both verifiers share: parse with the algorithm pinned
   * to HMAC (the library validating the time claims as it parses), then
   * (access tokens only) expiry, issued-at, issuer, subject. The first check
   * that fails decides the error.
   */
  function Verify(role: Role, secret: seq<byte>, token: string, now: int): Outcome<TokenError>
  {
    match Parse(secret, token)
    case None => Fail(InvalidToken)
    case Some(c) => VerifyClaims(role, c, now)
  }

  /** The checks on a decoded, correctly signed token's claims. */
  function VerifyClaims(role: Role, c: Claims, now: int): Outcome<TokenError>
  {
    if !StandardClaimsValid(c, now) then Fail(InvalidToken) else CheckClaims(role, c, now)
  }

  /** token.go's own checks, once parsing has succeeded. */
  function CheckClaims(role: Role, c: Claims, now: int): Outcome<TokenError>
  {
    if role == Access && !VerifyExpiresAt(c, now, true) then Fail(Expired(now - c.exp))
    else if !VerifyIssuedAt(c, now, true) then Fail(UsedBeforeIssued)
    else if !VerifyIssuer(c, Issuer, true) then Fail(InvalidIssuer)
    else if c.sub != role.Subject() then Fail(WrongRole)
    else Pass
  }

  /**
   * Accepts exactly the well-signed HMAC tokens whose claims are acceptable
   * for an access token now. A token that does not parse, or whose present
   * time claims fail the library's validation, is an invalid token; so the
   * expiry error is reported only for a token without an expiry claim, and
   * the issued-at error only for one without an issued-at claim.
   */
  function VerifyAccessToken(secret: seq<byte>, token: string, now: int): (r: Outcome<TokenError>)
    ensures r == Pass <==> Parse(secret, token).Some? && AccessAcceptable(Parse(secret, token).value, now)
    ensures r == Fail(InvalidToken) <==>
              Parse(secret, token).None? || !StandardClaimsValid(Parse(secret, token).value, now)
    ensures r.Fail? && r.error.Expired? ==>
              Parse(secret, token).Some? && Parse(secret, token).value.exp == 0 && r.error.delta == now
    ensures r == Fail(UsedBeforeIssued) ==> Parse(secret, token).Some? && Parse(secret, token).value.iat == 0
  {
    Verify(Access, secret, token, now)
  }

  /**
   * Accepts exactly the well-signed HMAC tokens whose claims are acceptable
   * for a refresh token now. token.go's own checks never read the expiry
   * claim, so an expiry error is never reported; a present expiry that has
   * passed still makes the token invalid, through the library's validation.
   */
  function VerifyRefreshToken(secret: seq<byte>, token: string, now: int): (r: Outcome<TokenError>)
    ensures r == Pass <==> Parse(secret, token).Some? && RefreshAcceptable(Parse(secret, token).value, now)
    ensures r == Fail(InvalidToken) <==>
              Parse(secret, token).None? || !StandardClaimsValid(Parse(secret, token).value, now)
    ensures !(r.Fail? && r.error.Expired?)
    ensures r == Fail(UsedBeforeIssued) ==> Parse(secret, token).Some? && Parse(secret, token).value.iat == 0
  {
    Verify(Refresh, secret, token, now)
  }

  // ---------------------------------------------------------------------------
  // The verifiers as written: a token string without three segments.
  // ---------------------------------------------------------------------------

  /**
   * The verifiers as the Go code is written. For a string that does not split
   * into three segments the library returns a nil token, and reading its
   * claims before looking at the error is a nil-pointer dereference: None
   * stands for that panic. On every other string the outcome is Verify's.
   */
  function VerifyAsWritten(role: Role, secret: seq<byte>, token: string, now: int): (r: Option<Outcome<TokenError>>)
    ensures r.None? <==> !ThreeSegments(token)
    ensures r.Some? ==> r.value == Verify(role, secret, token, now)
    ensures r.None? ==> Verify(role, secret, token, now) == Fail(InvalidToken)
  {
    if !ThreeSegments(token) then None else Some(Verify(role, secret, token, now))
  }

  /** As written, the empty string and strings of one or two segments make either verifier panic. */
  lemma MalformedTokenPanics(role: Role, secret: seq<byte>, now: int)
    ensures VerifyAsWritten(role, secret, "", now) == None
    ensures VerifyAsWritten(role, secret, "abc", now) == None
    ensures VerifyAsWritten(role, secret, "a.b", now) == None
  {
    assert Text.Split('.', "") == [""];
    Text.SplitJoin('.', ["abc"]);
    assert Text.Join('.', ["a", "b"]) == "a.b";
    Text.SplitJoin('.', ["a", "b"]);
  }

  /** As intended, and as modelled: a token string without three segments is an invalid token. */
  lemma MalformedTokenInvalid(secret: seq<byte>, token: string, now: int)
    requires !ThreeSegments(token)
    ensures VerifyAccessToken(secret, token, now) == Fail(InvalidToken)
    ensures VerifyRefreshToken(secret, token, now) == Fail(InvalidToken)
  {
  }

  // ---------------------------------------------------------------------------
  // Fail-fast order, as an independent definition.
  // ---------------------------------------------------------------------------

  /** One check: whether it passed, and the error it reports if not. */
  datatype Check = Check(passed: bool, failure: TokenError)

  /** The outcome of running checks in order and stopping at the first failure. */
  function FirstFailure(checks: seq<Check>): (r: Outcome<TokenError>)
    ensures r.Pass? <==> forall i :: 0 <= i < |checks| ==> checks[i].passed
    ensures r.Fail? ==> exists i :: 0 <= i < |checks| && !checks[i].passed && checks[i].failure == r.error
                                    && forall j :: 0 <= j < i ==> checks[j].passed
    decreases |checks|
  {
    if checks == [] then Pass
    else if !checks[0].passed then Fail(checks[0].failure)
    else
      var r := FirstFailure(checks[1..]);
      assert r.Fail? ==> exists i :: 1 <= i < |checks| && !checks[i].passed && checks[i].failure == r.error
                                     && forall j :: 0 <= j < i ==> checks[j].passed by {
        if r.Fail? {
          var k :| 0 <= k < |checks| - 1 && !checks[1..][k].passed && checks[1..][k].failure == r.error
                   && forall j :: 0 <= j < k ==> checks[1..][j].passed;
          assert forall j :: 1 <= j < k + 1 ==> checks[j].passed by {
            forall j | 1 <= j < k + 1 ensures checks[j].passed { assert checks[1..][j - 1] == checks[j]; }
          }
        }
      }
      r
  }

  /** The ordered checks token.go makes on a parsed token's claims for a role. */
  function ClaimChecks(role: Role, c: Claims, now: int): seq<Check>
  {
    (if role == Access then [Check(VerifyExpiresAt(c, now, true), Expired(now - c.exp))] else [])
    + [ Check(VerifyIssuedAt(c, now, true), UsedBeforeIssued),
        Check(VerifyIssuer(c, Issuer, true), InvalidIssuer),
        Check(c.sub == role.Subject(), WrongRole) ]
  }

  /**
   * The full ordered check list: decoding and signature first, then the
   * library's time validation, then token.go's claim checks.
   */
  function Checks(role: Role, secret: seq<byte>, token: string, now: int): seq<Check>
  {
    match Parse(secret, token)
    case None => [Check(false, InvalidToken)]
    case Some(c) => [Check(true, InvalidToken), Check(StandardClaimsValid(c, now), InvalidToken)]
                    + ClaimChecks(role, c, now)
  }

  /** token.go's claim checks report the error of the first failing one, in the documented order. */
  lemma {:induction false} CheckClaimsIsFailFast(role: Role, c: Claims, now: int)
    ensures CheckClaims(role, c, now) == FirstFailure(ClaimChecks(role, c, now))
  {
    var e := Check(VerifyExpiresAt(c, now, true), Expired(now - c.exp));
    var rest := [ Check(VerifyIssuedAt(c, now, true), UsedBeforeIssued),
                  Check(VerifyIssuer(c, Issuer, true), InvalidIssuer),
                  Check(c.sub == role.Subject(), WrongRole) ];
    assert rest[1..] == [rest[1], rest[2]] && rest[1..][1..] == [rest[2]] && rest[1..][1..][1..] == [];
    assert FirstFailure(rest[1..][1..][1..]) == Pass;
    assert FirstFailure(rest[1..][1..]) == if !rest[2].passed then Fail(WrongRole) else Pass;
    assert FirstFailure(rest[1..]) == if !rest[1].passed then Fail(InvalidIssuer) else FirstFailure(rest[1..][1..]);
    assert FirstFailure(rest) == if !rest[0].passed then Fail(UsedBeforeIssued) else FirstFailure(rest[1..]);
    if role == Access {
      assert ClaimChecks(role, c, now) == [e] + rest;
      assert ([e] + rest)[1..] == rest;
    } else {
      assert ClaimChecks(role, c, now) == rest;
    }
  }

  /** Both verifiers report the error of the first failing check, parsing included, in the documented order. */
  lemma VerifyIsFailFast(role: Role, secret: seq<byte>, token: string, now: int)
    ensures Verify(role, secret, token, now) == FirstFailure(Checks(role, secret, token, now))
  {
    var cs := Checks(role, secret, token, now);
    match Parse(secret, token)
    case None =>
      assert FirstFailure(cs) == Fail(InvalidToken);
    case Some(c) =>
      assert cs[1..][1..] == ClaimChecks(role, c, now);
      CheckClaimsIsFailFast(role, c, now);
  }

  /** Once a token has parsed, only its claims decide the outcome. */
  lemma VerifyParsed(role: Role, secret: seq<byte>, token: string, c: Claims, now: int)
    requires Parse(secret, token) == Some(c)
    ensures Verify(role, secret, token, now) == VerifyClaims(role, c, now)
  {
  }

  // ---------------------------------------------------------------------------
  // Round trips: a fresh token verifies under the secret that made it.
  // ---------------------------------------------------------------------------

  /** Verdicts on any token that parses to the claims of an access token issued at a positive time. */
  lemma FreshAccessClaimsVerdicts(secret: seq<byte>, token: string, issued: int, now: int)
    requires Parse(secret, token) == Some(AccessClaims(issued)) && issued > 0
    ensures now < issued || now > issued + AccessLifetime ==>
              VerifyAccessToken(secret, token, now) == Fail(InvalidToken)
              && VerifyRefreshToken(secret, token, now) == Fail(InvalidToken)
    ensures issued <= now < issued + AccessLifetime ==>
              VerifyAccessToken(secret, token, now) == Pass
              && VerifyRefreshToken(secret, token, now) == Fail(WrongRole)
  {
    VerifyParsed(Access, secret, token, AccessClaims(issued), now);
    VerifyParsed(Refresh, secret, token, AccessClaims(issued), now);
  }

  /**
   * Verdicts on any token that parses to the claims of a refresh token issued
   * at a positive time: from its issue on, the access verifier refuses it on
   * its missing expiry and the refresh verifier accepts it.
   */
  lemma FreshRefreshClaimsVerdicts(secret: seq<byte>, token: string, issued: int, now: int)
    requires Parse(secret, token) == Some(RefreshClaims(issued)) && issued > 0
    ensures now < issued ==>
              VerifyAccessToken(secret, token, now) == Fail(InvalidToken)
              && VerifyRefreshToken(secret, token, now) == Fail(InvalidToken)
    ensures issued <= now ==>
              VerifyAccessToken(secret, token, now) == Fail(Expired(now))
              && VerifyRefreshToken(secret, token, now) == Pass
  {
    VerifyParsed(Access, secret, token, RefreshClaims(issued), now);
    VerifyParsed(Refresh, secret, token, RefreshClaims(issued), now);
  }

  /**
   * An access token issued at a positive time verifies from the second it is
   * issued until the second before it expires.
   */
  lemma AccessRoundTrip(secret: seq<byte>, issued: int, now: int)
    requires |secret| > 0 && issued > 0
    requires issued <= now < issued + AccessLifetime
    ensures VerifyAccessToken(secret, GenerateAccessToken(secret, issued).value, now) == Pass
  {
    FreshAccessClaimsVerdicts(secret, GenerateAccessToken(secret, issued).value, issued, now);
  }

  /**
   * Once its ten minutes are up, an access token is refused as an invalid
   * token: the library's validation rejects the passed expiry before
   * token.go's own expiry check is reached.
   */
  lemma AccessExpires(secret: seq<byte>, issued: int, now: int)
    requires |secret| > 0 && issued > 0
    requires now > issued + AccessLifetime
    ensures VerifyAccessToken(secret, GenerateAccessToken(secret, issued).value, now) == Fail(InvalidToken)
  {
    FreshAccessClaimsVerdicts(secret, GenerateAccessToken(secret, issued).value, issued, now);
  }

  /** A refresh token issued at a positive time verifies at every later time: it never expires. */
  lemma RefreshRoundTrip(secret: seq<byte>, issued: int, now: int)
    requires |secret| > 0 && issued > 0 && issued <= now
    ensures VerifyRefreshToken(secret, GenerateRefreshToken(secret, issued).value, now) == Pass
  {
    FreshRefreshClaimsVerdicts(secret, GenerateRefreshToken(secret, issued).value, issued, now);
  }

  /**
   * Both kinds of token are refused before the time they were issued, as
   * invalid tokens: the library rejects the future issued-at claim.
   */
  lemma EarlyUseRejected(secret: seq<byte>, issued: int, now: int)
    requires |secret| > 0 && issued > 0 && now < issued
    ensures VerifyAccessToken(secret, GenerateAccessToken(secret, issued).value, now) == Fail(InvalidToken)
    ensures VerifyRefreshToken(secret, GenerateRefreshToken(secret, issued).value, now) == Fail(InvalidToken)
  {
    FreshAccessClaimsVerdicts(secret, GenerateAccessToken(secret, issued).value, issued, now);
    FreshRefreshClaimsVerdicts(secret, GenerateRefreshToken(secret, issued).value, issued, now);
  }

  /**
   * Issued at Unix time zero, a token has no issued-at claim (zero means
   * absent), so even at that second it is refused as used before issued.
   */
  lemma IssuedAtEpochRejected(secret: seq<byte>)
    requires |secret| > 0
    ensures VerifyAccessToken(secret, GenerateAccessToken(secret, 0).value, 0) == Fail(UsedBeforeIssued)
    ensures VerifyRefreshToken(secret, GenerateRefreshToken(secret, 0).value, 0) == Fail(UsedBeforeIssued)
  {
    MissingIssuedAtRejected(secret, GenerateAccessToken(secret, 0).value, AccessClaims(0), 0);
    MissingIssuedAtRejected(secret, GenerateRefreshToken(secret, 0).value, RefreshClaims(0), 0);
  }

  // ---------------------------------------------------------------------------
  // Invalid tokens: wrong secret, algorithm substitution.
  // ---------------------------------------------------------------------------

  /** A token made with one secret is an invalid token under any other secret, for both verifiers. */
  lemma OtherSecretRejected(s1: seq<byte>, s2: seq<byte>, issued: int, now: int)
    requires |s1| > 0 && s1 != s2
    ensures VerifyAccessToken(s2, GenerateAccessToken(s1, issued).value, now) == Fail(InvalidToken)
    ensures VerifyRefreshToken(s2, GenerateRefreshToken(s1, issued).value, now) == Fail(InvalidToken)
  {
    ParseOtherKey(HS256, s1, s2, AccessClaims(issued));
    ParseOtherKey(HS256, s1, s2, RefreshClaims(issued));
  }

  /** Any token whose header does not declare an HMAC algorithm is an invalid token, under every secret. */
  lemma NonHmacRejected(secret: seq<byte>, token: string, now: int)
    requires HeaderAlg(token).None? || HeaderAlg(token).value !in HmacFamily
    ensures VerifyAccessToken(secret, token, now) == Fail(InvalidToken)
    ensures VerifyRefreshToken(secret, token, now) == Fail(InvalidToken)
  {
  }

  /**
   * Rewriting the header of a freshly issued token to declare a non-HMAC
   * algorithm such as "none", keeping its payload and signature, makes it an
   * invalid token.
   */
  lemma AlgorithmSubstitutionRejected(secret: seq<byte>, issued: int, now: int, alg: string)
    requires |secret| > 0 && alg !in HmacFamily
    ensures VerifyAccessToken(secret, WithAlg(GenerateAccessToken(secret, issued).value, alg), now) == Fail(InvalidToken)
    ensures VerifyRefreshToken(secret, WithAlg(GenerateRefreshToken(secret, issued).value, alg), now) == Fail(InvalidToken)
  {
    WithAlgDeclares(GenerateAccessToken(secret, issued).value, alg);
    WithAlgDeclares(GenerateRefreshToken(secret, issued).value, alg);
  }

  /**
   * The pin is to the HMAC family, not to HS256: a token signed under the
   * right secret with HS384 or HS512 and acceptable claims is accepted.
   */
  lemma HmacFamilyAccepted(secret: seq<byte>, alg: string, c: Claims, now: int)
    requires alg in HmacFamily
    ensures AccessAcceptable(c, now) ==> VerifyAccessToken(secret, Sign(alg, secret, c), now) == Pass
    ensures RefreshAcceptable(c, now) ==> VerifyRefreshToken(secret, Sign(alg, secret, c), now) == Pass
  {
    ParseSign(alg, secret, c);
  }

  // ---------------------------------------------------------------------------
  // Hand-crafted, correctly signed tokens: each check in its turn. "Correctly
  // signed" is "parses under the secret", which by Codec.ParseIffSigned is
  // "is Sign(alg, secret, c) for an HMAC algorithm alg".
  // ---------------------------------------------------------------------------

  /** A correctly signed token with a future issued-at is refused by the library's validation, whatever else it holds. */
  lemma FutureIssuedAtRejected(secret: seq<byte>, token: string, c: Claims, now: int)
    requires Parse(secret, token) == Some(c) && c.iat > now && c.iat != 0
    ensures VerifyAccessToken(secret, token, now) == Fail(InvalidToken)
    ensures VerifyRefreshToken(secret, token, now) == Fail(InvalidToken)
  {
  }

  /** A correctly signed token with a future not-before is refused by the library's validation, whatever else it holds. */
  lemma FutureNotBeforeRejected(secret: seq<byte>, token: string, c: Claims, now: int)
    requires Parse(secret, token) == Some(c) && c.nbf > now && c.nbf != 0
    ensures VerifyAccessToken(secret, token, now) == Fail(InvalidToken)
    ensures VerifyRefreshToken(secret, token, now) == Fail(InvalidToken)
  {
  }

  /**
   * The only way to "use before issued": a correctly signed token with no
   * issued-at claim whose other time claims hold is refused by token.go's
   * required issued-at check (for an access token, once its expiry is present).
   */
  lemma MissingIssuedAtRejected(secret: seq<byte>, token: string, c: Claims, now: int)
    requires Parse(secret, token) == Some(c) && c.iat == 0 && StandardClaimsValid(c, now)
    ensures c.exp != 0 ==> VerifyAccessToken(secret, token, now) == Fail(UsedBeforeIssued)
    ensures VerifyRefreshToken(secret, token, now) == Fail(UsedBeforeIssued)
  {
  }

  /**
   * A correctly signed token with valid times but another issuer is refused
   * with an issuer error, whatever its subject.
   */
  lemma ForeignIssuerRejected(secret: seq<byte>, token: string, c: Claims, now: int)
    requires Parse(secret, token) == Some(c) && c.iss != Issuer
    requires c.iat != 0 && StandardClaimsValid(c, now)
    ensures c.exp != 0 ==> VerifyAccessToken(secret, token, now) == Fail(InvalidIssuer)
    ensures VerifyRefreshToken(secret, token, now) == Fail(InvalidIssuer)
  {
  }

  /**
   * Expiry boundary: otherwise valid, a token whose expiry has passed is an
   * invalid token; one expiring a second from now is accepted.
   */
  lemma ExpiryBoundary(secret: seq<byte>, token: string, c: Claims, now: int)
    requires Parse(secret, token) == Some(c) && c.exp != 0
    requires c.iat != 0 && c.iat <= now && (c.nbf == 0 || c.nbf <= now)
    requires c.iss == Issuer && c.sub == AccessSubject
    ensures now > c.exp ==> VerifyAccessToken(secret, token, now) == Fail(InvalidToken)
    ensures now + 1 == c.exp ==> VerifyAccessToken(secret, token, now) == Pass
  {
  }

  /**
   * The expiry check comes first among token.go's own: a correctly signed
   * token with no expiry claim that the library lets through is reported as
   * expired since time zero, even when its issued-at, issuer and subject are
   * all wrong as well.
   */
  lemma ExpiryReportedFirst(secret: seq<byte>, token: string, c: Claims, now: int)
    requires Parse(secret, token) == Some(c) && c.exp == 0 && StandardClaimsValid(c, now)
    ensures VerifyAccessToken(secret, token, now) == Fail(Expired(now))
  {
    VerifyParsed(Access, secret, token, c, now);
  }

  /** A refresh token whose present expiry has passed is an invalid token. */
  lemma RefreshPastExpiryRejected(secret: seq<byte>, token: string, c: Claims, now: int)
    requires Parse(secret, token) == Some(c) && c.exp != 0 && now > c.exp
    ensures VerifyRefreshToken(secret, token, now) == Fail(InvalidToken)
  {
  }

  // ---------------------------------------------------------------------------
  // Cross-role rejection.
  // ---------------------------------------------------------------------------

  /** A correctly signed token with subject "ref" and otherwise valid access claims is not an access token. */
  lemma RefreshSubjectNotAccess(secret: seq<byte>, token: string, c: Claims, now: int)
    requires Parse(secret, token) == Some(c) && c.sub == RefreshSubject
    requires c.exp != 0 && c.iat != 0 && StandardClaimsValid(c, now) && c.iss == Issuer
    ensures VerifyAccessToken(secret, token, now) == Fail(WrongRole)
  {
  }

  /** A correctly signed token with subject "acc" and otherwise valid claims is not a refresh token. */
  lemma AccessSubjectNotRefresh(secret: seq<byte>, token: string, c: Claims, now: int)
    requires Parse(secret, token) == Some(c) && c.sub == AccessSubject
    requires c.iat != 0 && StandardClaimsValid(c, now) && c.iss == Issuer
    ensures VerifyRefreshToken(secret, token, now) == Fail(WrongRole)
  {
  }

  /**
   * Issued tokens across roles: a fresh access token fails refresh
   * verification on its subject while it is unexpired, and as an invalid
   * token afterwards; a fresh refresh token fails access verification on
   * expiry, since it has no expiry claim, with the delta counted from time
   * zero.
   */
  lemma IssuedTokensCrossRole(secret: seq<byte>, issued: int, now: int)
    requires |secret| > 0 && issued > 0 && issued <= now
    ensures now < issued + AccessLifetime ==>
              VerifyRefreshToken(secret, GenerateAccessToken(secret, issued).value, now) == Fail(WrongRole)
    ensures now > issued + AccessLifetime ==>
              VerifyRefreshToken(secret, GenerateAccessToken(secret, issued).value, now) == Fail(InvalidToken)
    ensures VerifyAccessToken(secret, GenerateRefreshToken(secret, issued).value, now) == Fail(Expired(now))
  {
    FreshAccessClaimsVerdicts(secret, GenerateAccessToken(secret, issued).value, issued, now);
    FreshRefreshClaimsVerdicts(secret, GenerateRefreshToken(secret, issued).value, issued, now);
  }

  /** No token, under any secret and at any two times, is accepted both as access and as refresh token. */
  lemma NoTokenServesBothRoles(secret: seq<byte>, token: string, t1: int, t2: int)
    ensures !(VerifyAccessToken(secret, token, t1) == Pass && VerifyRefreshToken(secret, token, t2) == Pass)
  {
  }

  /**
   * No forgery and issuer pinning: an accepted access token is exactly the
   * token the signer makes, under this secret and with an HMAC algorithm, for
   * claims naming this issuer and the access role and valid now.
   */
  lemma AcceptedAccessIsSigned(secret: seq<byte>, token: string, now: int)
    requires VerifyAccessToken(secret, token, now) == Pass
    ensures HeaderAlg(token).Some? && HeaderAlg(token).value in HmacFamily
    ensures var c := Parse(secret, token).value;
      token == Sign(HeaderAlg(token).value, secret, c)
      && c.iss == Issuer && c.sub == AccessSubject && c.iat <= now <= c.exp
  {
    ParseOnlySigned(secret, token, Parse(secret, token).value);
  }

  /** The same for refresh tokens, whose expiry claim may be absent. */
  lemma AcceptedRefreshIsSigned(secret: seq<byte>, token: string, now: int)
    requires VerifyRefreshToken(secret, token, now) == Pass
    ensures HeaderAlg(token).Some? && HeaderAlg(token).value in HmacFamily
    ensures var c := Parse(secret, token).value;
      token == Sign(HeaderAlg(token).value, secret, c)
      && c.iss == Issuer && c.sub == RefreshSubject && c.iat <= now && (c.exp == 0 || now <= c.exp)
  {
    ParseOnlySigned(secret, token, Parse(secret, token).value);
  }

  /**
   * token.go's own refresh checks never read the expiry claim: two correctly
   * signed tokens whose claims differ only in expiry, each absent or not yet
   * passed (the values the library's validation accepts now), get the same
   * verdict.
   */
  lemma RefreshExpiryUnread(secret: seq<byte>, t1: string, t2: string, c: Claims, exp: int, now: int)
    requires Parse(secret, t1) == Some(c) && Parse(secret, t2) == Some(c.(exp := exp))
    requires c.exp == 0 || now <= c.exp
    requires exp == 0 || now <= exp
    ensures VerifyRefreshToken(secret, t1, now) == VerifyRefreshToken(secret, t2, now)
  {
    VerifyParsed(Refresh, secret, t1, c, now);
    VerifyParsed(Refresh, secret, t2, c.(exp := exp), now);
  }
}
