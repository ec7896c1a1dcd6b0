# rest-cms admin tokens in Dafny

This project models the token lifecycle of the rest-cms admin API (`src/v1/token.go`).
The service issues two kinds of signed JSON Web Tokens (RFC 7519) for its single admin user:

- a short-lived access token (subject `"acc"`, expiring ten minutes after issue);
- a refresh token (subject `"ref"`, with no expiry claim).

It verifies a presented token with a fixed, fail-fast sequence of checks:

1. parse with the JWT library, with the algorithm pinned to the HMAC family of section 3.2 of RFC 7518. While parsing, the library also validates the time claims the token carries: a present `exp` must not have passed, and a present `iat` or `nbf` must not be in the future;
2. expiry, required (access tokens only);
3. issued-at, required, not in the future;
4. exact issuer `"admin.rest-cms"`;
5. subject equal to the expected role.

The refresh handler strips the `^Bearer\s` prefix from the `Authorization` header, verifies the rest as a refresh token, and mints a new access token only when that succeeds.

The Go functions are pure apart from the clock and the HTTP responses, so the model is made of functions and lemmas:

- `wrappers.dfy`: `Option`, `Result` and `Outcome`. `Outcome` plays the role of a Go function that returns only `error` (`Pass` is nil).
- `text.dfy`: escaping, canonical decimal integers, and split/join on a separator. Each comes with its round-trip lemmas in both directions.
- `codec.dfy`: a concrete stand-in for the JWT library's sign and parse.
  - A token is `header.payload.signature`. The header holds the escaped algorithm name. The payload holds `iat,exp,nbf,iss,sub`.
  - The signature is a symbolic MAC: an escaped encoding of the algorithm, the signing input and the key, so it is injective in the key.
  - The verifier uses only the codec laws proved there:
    - a round trip under the same key;
    - `None` under any other key;
    - `None` for any header whose algorithm is not HS256/HS384/HS512;
    - an accepted token is exactly `Sign(alg, key, claims)`.
- `tokens.dfy`: the constants, the two generators, and the two verifiers. It also holds the claim validators of the JWT library's standard claims, and the library's own time validation (`StandardClaimsValid`, the validators with `required = false`). The security properties are proved there too.
- `refresh.dfy`: the Bearer strip and the verify-then-issue composition of `refreshAccessToken`.

The current time is a parameter `now` (Unix seconds). Claims follow the JWT library's standard-claims record: a zero time or an empty string means the claim is absent. This matters in two places:

- A refresh token has `exp = 0`.
- A token issued at Unix time 0 has no issued-at claim, so it is refused (`IssuedAtEpochRejected`).

The validators' comparisons:

- Expiry: "not expired" means `now <= exp`.
- Issued-at: "issued" means `iat <= now`.
- Not-before: "valid" means `nbf <= now`.
- Issuer: the comparison is exact.

No lemma about issued tokens relies on the second `now == exp`.

### Behaviour worth knowing (the model follows the code)

- **The library's validation comes first.** A present `exp` that has passed is refused as an invalid token, and so is a present `iat` or `nbf` in the future. This happens before token.go's own checks run.
  - So token.go's "expired by" error is reported only for a token with no `exp` claim, and then with delta `now`.
  - Its "used before issued" error is reported only for a token with no `iat` claim.
  - The contracts of `VerifyAccessToken` and `VerifyRefreshToken` state both consequences.
- **A refresh token's expiry still counts.** token.go's refresh checks never read `exp` (`RefreshExpiryUnread`). But a refresh token whose present `exp` has passed is invalid, through the library (`RefreshPastExpiryRejected`).
- **Cross-role, refresh token as access token.** A generated refresh token given to `verifyAccessToken` is rejected by the expiry check. It has no `exp`, so the error is `Expired(now)`, not a wrong-role error (`IssuedTokensCrossRole`). A hand-made refresh-subject token that does carry a valid `exp` is rejected as `WrongRole` (`RefreshSubjectNotAccess`). Either way it is rejected, and no token passes both verifiers (`NoTokenServesBothRoles`).
- **The algorithm pin covers the whole HMAC family, not HS256 alone.** The key function accepts any `*jwt.SigningMethodHMAC`, so an HS384 or HS512 token signed with the right secret is accepted (`HmacFamilyAccepted`).
- **Prefix strip.** The handler strips `"Bearer"` followed by any one RE2 whitespace character (tab, LF, FF, CR, space), not only `"Bearer "`. It does this once, at the start of the header only.
- **No `SigningFailed` error.** Signing with a byte-slice key cannot fail, so the only issuance error is `EmptySecret`.
- **A token string without three segments crashes the verifiers.** See "## Findings". The rest of the model uses the corrected behaviour, an invalid token.

## Model

In the rows below, a "correctly signed token" is any token that parses under the secret to the claims named. Its signature segment is the MAC of its own `header.payload` under the secret (`Codec.ParseChecksMac`). In this model's canonical encoding, such a token is also exactly `Sign(alg, secret, c)` for an HMAC algorithm `alg` (`Codec.ParseIffSigned`). For what this means in the program, see the line on these members under "## Left out".

| member | source | states |
|---|---|---|
| `Codec.Sign` | src/v1/token.go:25-30 | The signed token splits back into exactly three segments: the header naming the algorithm, the encoded claims, and the MAC of `header.payload` under the key. |
| `Tokens.GenerateAccessToken` | src/v1/token.go:19-31 | Fails exactly when the secret is empty, and then with `EmptySecret`. Otherwise it returns an HS256 token that parses under the same secret to exactly `iat=now, exp=now+600, iss="admin.rest-cms", sub="acc"`, with no `nbf`. |
| `Tokens.GenerateRefreshToken` | src/v1/token.go:33-44 | Fails exactly when the secret is empty, and then with `EmptySecret`. Otherwise it returns an HS256 token that parses to exactly `iat=now, iss="admin.rest-cms", sub="ref"`, with no expiry claim and no `nbf`. |
| `Tokens.ExpiresAtProperties` | src/v1/token.go:87 | The expiry validator: once it fails it fails at every later time; `required` only adds the absent claim to the failures; a present expiry passes at its own second and fails one second later. |
| `Tokens.IssuedAtProperties` | src/v1/token.go:93 | The issued-at and not-before validators: once they pass they pass at every later time; `required` only adds the absent claim to the failures; a present claim passes at its own second and fails one second before. |
| `Tokens.IssuerProperties` | src/v1/token.go:97 | The required issuer check passes exactly on the expected (non-empty) issuer. |
| `Tokens.VerifyAccessToken` | src/v1/token.go:70-106 | Passes exactly when the token parses under the secret and its claims have a present expiry not yet passed, a present issued-at not in the future, no future `nbf`, this issuer and subject `"acc"`. Reports `InvalidToken` exactly when parsing or the library's time validation fails. An expiry error comes only from a missing `exp`, with delta `now`. A used-before-issued error comes only from a missing `iat`. |
| `Tokens.VerifyRefreshToken` | src/v1/token.go:108-136 | Passes exactly when the token parses and has an expiry that is absent or not yet passed, a present issued-at not in the future, no future `nbf`, this issuer and subject `"ref"`. Reports `InvalidToken` exactly when parsing or the library's time validation fails. Never reports an expiry error. A used-before-issued error comes only from a missing `iat`. |
| `Tokens.VerifyAsWritten` | src/v1/token.go:71-83 | As written: panics (`None`) exactly on a token string that is not three segments; otherwise gives the verifier's outcome. Where it panics, the corrected verifier reports `InvalidToken`. |
| `Tokens.MalformedTokenPanics` | src/v1/token.go:79 | As written, `""`, `"abc"` and `"a.b"` make either verifier panic. |
| `Tokens.MalformedTokenInvalid` | src/v1/token.go:81-83 | Corrected: a token string that is not three segments is `InvalidToken` for both verifiers. |
| `Tokens.FirstFailure` | src/v1/token.go:81-105 | Independent fail-fast reference: `Pass` iff every check passed; otherwise the error of a failing check all of whose predecessors passed. |
| `Tokens.CheckClaimsIsFailFast` | src/v1/token.go:87-105 | token.go's claim checks equal `FirstFailure` over the ordered list: expiry (access only), issued-at, issuer, subject. |
| `Tokens.VerifyIsFailFast` | src/v1/token.go:70-106 | Both verifiers equal `FirstFailure` over the ordered list: parse, the library's time validation, then token.go's claim checks. |
| `Tokens.FreshAccessClaimsVerdicts` | src/v1/token.go:71-103 | A token carrying access claims issued at `issued > 0` passes access verification from `issued` to the second before expiry. In that window it is `WrongRole` for the refresh verifier. Before `issued` or after expiry it is `InvalidToken` for both. |
| `Tokens.FreshRefreshClaimsVerdicts` | src/v1/token.go:87-91 | A token carrying refresh claims issued at `issued > 0` is `InvalidToken` for both verifiers before `issued`. From then on it is `Expired(now)` for the access verifier and passes the refresh verifier. |
| `Tokens.AccessRoundTrip` | src/v1/token_test.go:32-40 | An access token issued at a positive time verifies under its own secret from issue until the second before expiry. |
| `Tokens.AccessExpires` | src/v1/token.go:81-83 | After ten minutes an issued access token is `InvalidToken`: the library refuses its passed expiry. |
| `Tokens.RefreshRoundTrip` | src/v1/token_test.go:173-181 | A refresh token issued at a positive time verifies at every later time. |
| `Tokens.EarlyUseRejected` | src/v1/token.go:81-83 | Both kinds of issued token are `InvalidToken` before their issue time: the library refuses the future issued-at. |
| `Tokens.IssuedAtEpochRejected` | src/v1/token.go:93-95 | A token issued at Unix time 0 has no issued-at claim and is refused as `UsedBeforeIssued`. |
| `Tokens.OtherSecretRejected` | src/v1/token_test.go:42-48 | Under a secret other than the one it was made with, an issued token of either kind is `InvalidToken`. |
| `Tokens.NonHmacRejected` | src/v1/token.go:71-83 | Any token whose header declares no HMAC algorithm is `InvalidToken` for both verifiers, under every secret. |
| `Tokens.AlgorithmSubstitutionRejected` | src/v1/token_test.go:50-81 | Rewriting an issued token's header to a non-HMAC algorithm such as `"none"`, keeping payload and signature, gives `InvalidToken`. |
| `Tokens.HmacFamilyAccepted` | src/v1/token.go:72-76 | A token signed with any HMAC algorithm under the right secret, with acceptable claims, passes. |
| `Tokens.FutureIssuedAtRejected` | src/v1/token_test.go:83-99 | A correctly signed token with a future issued-at is `InvalidToken` for both verifiers, whatever else it holds. |
| `Tokens.FutureNotBeforeRejected` | src/v1/token.go:81-83 | A correctly signed token with a future not-before is `InvalidToken` for both verifiers, whatever else it holds. |
| `Tokens.MissingIssuedAtRejected` | src/v1/token.go:93-95 | A correctly signed token with no issued-at, whose other time claims hold, is `UsedBeforeIssued`. For the access verifier this needs a present expiry. |
| `Tokens.ForeignIssuerRejected` | src/v1/token_test.go:101-117 | A correctly signed token with another issuer and valid times is `InvalidIssuer`, whatever its subject. |
| `Tokens.ExpiryBoundary` | src/v1/token_test.go:137-153 | Otherwise valid: a token whose present expiry has passed is `InvalidToken`; an expiry one second ahead passes. |
| `Tokens.ExpiryReportedFirst` | src/v1/token.go:87-91 | A correctly signed token with no expiry claim that the library lets through is `Expired(now)` for the access verifier, whatever else is wrong with it. |
| `Tokens.RefreshPastExpiryRejected` | src/v1/token.go:117-121 | A correctly signed refresh-verifier input whose present expiry has passed is `InvalidToken`. |
| `Tokens.RefreshSubjectNotAccess` | src/v1/token_test.go:119-135 | A correctly signed token with subject `"ref"` and otherwise valid access claims is `WrongRole` for the access verifier. |
| `Tokens.AccessSubjectNotRefresh` | src/v1/token_test.go:256-272 | A correctly signed token with subject `"acc"` and otherwise valid claims is `WrongRole` for the refresh verifier. |
| `Tokens.IssuedTokensCrossRole` | src/v1/token.go:87-133 | An issued access token is `WrongRole` as a refresh token until the second before it expires, and `InvalidToken` after expiry. An issued refresh token is `Expired(now)` as an access token. |
| `Tokens.NoTokenServesBothRoles` | src/v1/token.go:101-133 | No token is accepted by both verifiers, at any times. |
| `Tokens.AcceptedAccessIsSigned` | src/v1/token.go:70-106 | An accepted access token is exactly the signer's output under this secret with an HMAC algorithm, for claims with this issuer, subject `"acc"` and `iat <= now <= exp`. |
| `Tokens.AcceptedRefreshIsSigned` | src/v1/token.go:108-136 | An accepted refresh token is exactly the signer's output under this secret, for claims with this issuer, subject `"ref"`, `iat <= now`, and an expiry that is absent or not passed. |
| `Tokens.RefreshExpiryUnread` | src/v1/token.go:123-135 | Two correctly signed tokens whose claims differ only in an expiry the library accepts get the same refresh verdict. |
| `Codec.Parse` | src/v1/token.go:71-83 | A token is parsed only if its header declares an algorithm of the HMAC family. |
| `Codec.ParseSign` | src/v1/token.go:71-77 | Round trip: a token signed with an HMAC algorithm parses back, under the same key, to its claims. |
| `Codec.ParseOtherKey` | src/v1/token.go:71-83 | A token signed under one key does not parse under any other key. |
| `Codec.ParseChecksMac` | src/v1/token.go:71-83 | A token that parses under a key has three segments and declares an HMAC algorithm, and its signature segment is the MAC of its own `header.payload` under that key. |
| `Codec.ParseOnlySigned` | src/v1/token.go:71-83 | A token that parses under a key is exactly `Sign(alg, key, claims)` for the HMAC algorithm its header declares. |
| `Codec.ParseIffSigned` | src/v1/token.go:71-83 | Parsing to `c` under a key holds iff the token is `Sign(alg, key, c)` for some HMAC algorithm. |
| `Codec.SignDeclares` | src/v1/token.go:25 | A signed token's header declares the algorithm it was signed with. |
| `Codec.WithAlgDeclares` | src/v1/token_test.go:55-76 | Rewriting the header of a three-segment token makes it declare exactly the new algorithm. |
| `Refresh.BearerPrefixShape` | src/v1/token.go:144 | `^Bearer\s` matches exactly the headers that start with `"Bearer"` and one RE2 whitespace character. |
| `Refresh.StripBearer` | src/v1/token.go:144 | The result is a suffix of the header. It differs from the header iff the header matches `^Bearer\s`, and then exactly seven characters are gone. |
| `Refresh.StripBearerPrefixed` | src/v1/token.go:144 | `"Bearer"`, one RE2 whitespace character and a token strip to exactly the token. |
| `Refresh.RefreshAccessToken` | src/v1/token.go:139-161 | Any verification failure gives `InvalidRefreshToken` with its cause and mints nothing, whatever the secret. A passing verification under an empty secret gives `GenerationFailed(EmptySecret)`. A token is minted iff verification passes and the secret is non-empty. The minted token carries fresh access claims. |
| `Refresh.RefreshAccessTokenAsWritten` | src/v1/token.go:139-151 | As written: panics (`None`) exactly when the stripped header is not three segments; otherwise gives the handler's result. Where it panics, the corrected handler gives `InvalidRefreshToken(InvalidToken)`. |
| `Refresh.MissingHeaderPanics` | src/v1/token.go:142-146 | As written, an empty `Authorization` header, or a bare `"Bearer "`, makes the handler panic. |
| `Refresh.MissingHeaderUnauthorized` | src/v1/token.go:146-151 | Corrected: a header that strips to fewer or more than three segments is `InvalidRefreshToken(InvalidToken)`. |
| `Refresh.RefreshedTokenVerifies` | src/v1/token.go:153-160 | A minted access token verifies from minting until the second before it expires. |
| `Refresh.EmptySecretFailsAfterVerify` | src/v1/token.go:146-158 | With an empty secret, a refresh token signed under it still verifies; only then does generation fail with `EmptySecret`. |
| `Refresh.BearerRefreshMints` | src/v1/token.go:142-160 | A verifying refresh token behind `"Bearer"` and one whitespace character mints an access token under a non-empty secret. |
| `Refresh.RefreshLeg` | src/v1/token.go:142-160 | A verifying refresh token presented as `"Bearer <token>"` mints an access token that verifies at once. |
| `Refresh.Lifecycle` | src/v1/token.go:20-161 | Tokens issued at t0 > 0: the access token verifies at t0 and is `InvalidToken` more than ten minutes later. The refresh token still verifies then, and mints a new access token that verifies. |

## Findings

| source | as written | input that shows it | evidently intended | confidence | as-written member | corrected member |
|---|---|---|---|---|---|---|
| src/v1/token.go:79 | `token.Claims` is read before `err` is looked at. The library returns a nil token for a string that does not split into three segments, so both verifiers (line 79 and line 117) dereference nil and panic. | `""`, `"abc"`, `"a.b"` | the `Invalid token` error of lines 81-83 and 119-121 | high; not executed | `Tokens.MalformedTokenPanics` | `Tokens.MalformedTokenInvalid` |
| src/v1/token.go:142-149 | A request with no `Authorization` header passes `""` to `verifyRefreshToken`, which panics. The server's recovery middleware (src/main.go:26) answers 500 instead of the handler's 401. | `Authorization` absent, or `"Bearer "` | `401 Invalid refresh token` | high; not executed | `Refresh.MissingHeaderPanics` | `Refresh.MissingHeaderUnauthorized` |

## Left out

- The JWT library's encoding and cryptography are replaced by the concrete codec above:
  - base64url and JSON encoding;
  - HMAC-SHA256/384/512.

  The stand-in MAC has none of HMAC's secrecy. Cryptographic soundness is not modelled.
- Codec.ParseOnlySigned, Codec.ParseIffSigned, Tokens.AcceptedAccessIsSigned, Tokens.AcceptedRefreshIsSigned: "exactly the signer's output" is a property of the canonical stand-in encoding, which has one string per algorithm, key and claims. The program accepts every encoding of the same claims that carries a valid MAC of its own `header.payload`, not only `SignedString`'s output. Examples are a header without `typ`, payload keys in another order or with spaces, or an extra `jti`. The library's base64 decoding may also admit variant spellings of an issued token's own signature segment. With the same claims, each such token gets the same verdict. What holds for the program is `Codec.ParseChecksMac`. The same applies to the "only if" half of `ParseIffSigned`.
- Codec.ParseOtherKey, Tokens.OtherSecretRejected: these hold because the stand-in MAC is injective in the key, and HMAC is not (RFC 2104). HMAC zero-pads a key shorter than the hash block and hashes a longer one. So distinct secrets such as `"foo"` and `"foo\x00"`, or a long secret and its hash, are one HMAC key: the program accepts under the second a token made under the first, and the model does not.
- The library's parse errors other than a wrong segment count (bad base64 or JSON) are not distinguished: in the program they all give `Invalid token`, because the library then returns a non-nil token, so src/v1/token.go:79 does not panic and lines 81-83 report the error. In the model they are `Parse` returning `None`.
- Other registered claims (`aud`, `jti`) and the `typ` header field are not modelled. Neither token.go nor the library's standard validation reads them.
- The clock is the parameter `now`: `time.Now()` at src/v1/token.go:26-27, 85 and 123, and the library's own clock read during parsing. The model uses one instant for all of them. In the program, `generateAccessToken` can straddle a second boundary between its `iat` and `exp`. The library's validation and token.go's checks can also see different seconds.
- Timestamps are unbounded integers, not `int64`.
- `Expired.delta` is in whole seconds. Go's `time.Duration` is in nanoseconds and saturates; neither detail is modelled.
- The HTTP side is not modelled:
  - `getAdminToken` (src/v1/token.go:47-68);
  - the JSON and status responses of `refreshAccessToken`;
  - route binding with basic auth and `buildAdminAccounts` (src/v1/v1.go);
  - the `/ping` server and the recovery middleware (src/main.go), beyond the panic recorded under "## Findings".

  The two response kinds of the refresh handler are kept only as `RefreshFailure`. The panic is kept as `None` in the as-written members.
- Configuration is not modelled: the `TOKEN_SECRET`, `ADMIN_NAME` and `ADMIN_PASS` environment lookups, and the hard-coded `"admin"` secret of `refreshAccessToken` (src/v1/token.go:140). The secret is a parameter.
- The handler copies in src/v1/v1.go duplicate those in src/v1/token.go. The composition is modelled once.
- Error message texts are not modelled, including the refresh verifier's "not access token" wording. Each error is a `TokenError` constructor.
