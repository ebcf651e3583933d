/**
 * The decision logic of `check_oidc_auth` (data/lambda_handler.py:85-96) and
 * `auth_handler` (data/lambda_handler.py:99-120): who is turned away with 401, who
 * is redirected with the four cookies, and where the handler raises. Token
 * verification, the body's base64 decoding, query parsing and the signer are
 * collaborators passed in as functions.
 */
module Auth {
  import opened Wrappers
  import opened Headers
  import opened Json
  import Policy
  import Identity
  import Redirect
  import CloudFront

  /** What verifying the `id_token` gave: its claims, a rejected token, or another exception. */
  datatype JwtOutcome =
    | Decoded(claims: map<string, Json>)
    | InvalidToken   // `jwt.InvalidTokenError`, including `ExpiredSignatureError`: caught
    | Failed         // anything else, such as a JWKS lookup error: propagates

  /** Python truthiness of a decoded JSON value. */
  predicate Truthy(v: Json) {
    match v
    case JNull => false
    case JBool(b) => b
    case JInt(n) => n != 0
    case JStr(s) => |s| > 0
    case JArr(items) => |items| > 0
    case JObj(ms) => |ms| > 0
  }

  /** What `check_oidc_auth` does: returns a claim, returns None, or raises. */
  datatype Check = Email(value: Json) | NoEmail | Raises

  /** `check_oidc_auth`. */
  function CheckOidcAuth(outcome: JwtOutcome): (r: Check)
    ensures r.Email? <==> outcome.Decoded? && "email_verified" in outcome.claims
                          && Truthy(outcome.claims["email_verified"]) && "email" in outcome.claims
    ensures r.Email? ==> r.value == outcome.claims["email"]
    ensures r.Raises? <==>
      (outcome.Failed? || (outcome.Decoded? && "email_verified" in outcome.claims
                           && Truthy(outcome.claims["email_verified"]) && "email" !in outcome.claims))
  {
    match outcome
    case Decoded(data) =>
      var verified := if "email_verified" in data then data["email_verified"] else JBool(false);
      if Truthy(verified) then
        if "email" in data then Email(data["email"]) else Raises
      else NoEmail
    case InvalidToken => NoEmail
    case Failed => Raises
  }

  /**
   * The claim is tested for truthiness only: the string `"false"` is non-empty,
   * so a token carrying it is taken as verified.
   */
  lemma StringFalseVerified(email: Json)
    ensures CheckOidcAuth(Decoded(map["email_verified" := JStr("false"), "email" := email])) == Email(email)
  {
    var claims := map["email_verified" := JStr("false"), "email" := email];
    assert "email_verified" in claims && claims["email_verified"] == JStr("false");
    assert "email" in claims && claims["email"] == email;
  }

  /** The collaborators of the handler. */
  datatype Services = Services(
    sign: Policy.Signer,                  // `rsa.sign` with the loaded key
    verify: string -> JwtOutcome,         // JWKS key lookup and `jwt.decode`
    decodeBody: string -> Option<string>, // `base64.b64decode(...).decode("utf8")`; None when it raises
    parse: string -> Redirect.Query)      // `urllib.parse.parse_qs`

  /** The parts of the Lambda event the handler reads; absent fields hold their `.get` defaults. */
  datatype Request = Request(httpMethod: string, body: string, isBase64Encoded: bool, rawQueryString: string)

  /** The response dict; `location`, `cookies` and `isBase64Encoded` are absent from the 401 one. */
  datatype Response = Response(
    statusCode: int, body: string,
    location: Option<string>, cookies: Option<seq<string>>, isBase64Encoded: Option<bool>)

  datatype Outcome = Returned(response: Response) | Raised

  const Unauthorized := Response(401, "Unauthorized", None, None, None)

  /** The form text of a request: its body, decoded when it is flagged base64; None when decoding raises. */
  function PostData(request: Request, services: Services): Option<string> {
    if request.isBase64Encoded then services.decodeBody(request.body) else Some(request.body)
  }

  /** What `check_oidc_auth` says about the `id_token` of a POST whose body could be read. */
  function TokenCheck(request: Request, services: Services, postData: string): Check {
    CheckOidcAuth(services.verify(Redirect.FirstValue(services.parse(postData), "id_token", "")))
  }

  /** The cookie names of a successful login, in the order they are sent. */
  const CookieNames := [Policy.PolicyHeader, Policy.SignatureHeader, Policy.KeyPairIdHeader, Identity.IdentityHeader]

  lemma CookieNamesDistinct()
    ensures Identity.IdentityHeader !in [Policy.PolicyHeader, Policy.SignatureHeader, Policy.KeyPairIdHeader]
  {
    assert Identity.IdentityHeader[0] == 'D';
    assert Policy.PolicyHeader[0] == 'C' && Policy.SignatureHeader[0] == 'C' && Policy.KeyPairIdHeader[0] == 'C';
  }

  /** `cookies.update(encode_identity_cookie(identity))` on the three policy headers appends the fourth. */
  lemma UpdateWithIdentity(headers: Dict, identity: Dict)
    requires Keys(headers) == [Policy.PolicyHeader, Policy.SignatureHeader, Policy.KeyPairIdHeader]
    requires Keys(identity) == [Identity.IdentityHeader]
    ensures Update(headers, identity) == headers + identity
  {
    CookieNamesDistinct();
    PutNew(headers, identity[0].0, identity[0].1);
    assert identity[1..] == [];
    assert identity == [identity[0]];
  }

  /**
   * The 302 response of a login as `email`: the redirect, an empty body, and the
   * policy, signature, key-pair-id and identity cookies in that order.
   */
  predicate LoginResponse(response: Response, request: Request, cfg: Policy.Config, now: int,
                          services: Services, email: string)
  {
    var expiry := Policy.ExpirationTime(cfg, now);
    var identityCookie := Identity.EncodeIdentityCookie(email, services.sign);
    && response.statusCode == 302
    && response.location == Some(Redirect.SetRedirect(services.parse(request.rawQueryString)))
    && response.body == ""
    && response.isBase64Encoded == Some(false)
    && response.cookies.Some? && |response.cookies.value| == 4 && |identityCookie| == 1
    && response.cookies.value[0] == CookieLine(Policy.PolicyHeader, CloudFront.UrlSafeB64(Policy.PolicyBytes(expiry)))
    && response.cookies.value[1] == CookieLine(Policy.SignatureHeader, CloudFront.UrlSafeB64(services.sign(Policy.PolicyBytes(expiry))))
    && response.cookies.value[2] == CookieLine(Policy.KeyPairIdHeader, cfg.keyPairId)
    && response.cookies.value[3] == CookieLine(Identity.IdentityHeader, identityCookie[0].1)
  }

  /** The cookie lines written from the three policy headers followed by the identity cookie. */
  lemma LoginLines(headers: Dict, identityCookie: Dict, lines: seq<string>, expiry: int, cfg: Policy.Config,
                   sign: Policy.Signer, email: string)
    requires Keys(headers) == [Policy.PolicyHeader, Policy.SignatureHeader, Policy.KeyPairIdHeader]
    requires headers[0].1 == CloudFront.UrlSafeB64(Policy.PolicyBytes(expiry))
    requires headers[1].1 == CloudFront.UrlSafeB64(sign(Policy.PolicyBytes(expiry)))
    requires headers[2].1 == cfg.keyPairId
    requires identityCookie == Identity.EncodeIdentityCookie(email, sign)
    requires |lines| == |headers + identityCookie|
    requires forall i :: 0 <= i < |lines| ==> lines[i] == CookieLine((headers + identityCookie)[i].0, (headers + identityCookie)[i].1)
    ensures |lines| == 4 && |identityCookie| == 1
    ensures lines[0] == CookieLine(Policy.PolicyHeader, CloudFront.UrlSafeB64(Policy.PolicyBytes(expiry)))
    ensures lines[1] == CookieLine(Policy.SignatureHeader, CloudFront.UrlSafeB64(sign(Policy.PolicyBytes(expiry))))
    ensures lines[2] == CookieLine(Policy.KeyPairIdHeader, cfg.keyPairId)
    ensures lines[3] == CookieLine(Identity.IdentityHeader, identityCookie[0].1)
  {
    var all := headers + identityCookie;
    assert all[3] == identityCookie[0];
  }

  lemma CookieNamesPlain()
    ensures '=' !in Policy.PolicyHeader && '=' !in Policy.SignatureHeader
    ensures '=' !in Policy.KeyPairIdHeader && '=' !in Identity.IdentityHeader
  {
  }

  /**
   * Read back, the cookies of a login carry the four names in order, the policy
   * grants access until the expiration time, the key-pair id is the configured one,
   * and the identity cookie holds the email and its signature.
   */
  lemma LoginCookiesReadBack(response: Response, request: Request, cfg: Policy.Config, now: int,
                             services: Services, email: string)
    requires LoginResponse(response, request, cfg, now, services, email)
    ensures var lines := response.cookies.value;
      && ParseCookieLine(lines[0]).Some? && ParseCookieLine(lines[0]).value.0 == Policy.PolicyHeader
      && Policy.EmbeddedExpiry(ParseCookieLine(lines[0]).value.1) == Some(Policy.ExpirationTime(cfg, now))
      && ParseCookieLine(lines[1]).Some? && ParseCookieLine(lines[1]).value.0 == Policy.SignatureHeader
      && ParseCookieLine(lines[2]) == Some((Policy.KeyPairIdHeader, cfg.keyPairId))
      && ParseCookieLine(lines[3]).Some? && ParseCookieLine(lines[3]).value.0 == Identity.IdentityHeader
      && Identity.ReadIdentityCookie(ParseCookieLine(lines[3]).value.1)
         == Some((email, Identity.IdentitySignature(email, services.sign)))
  {
    var expiry := Policy.ExpirationTime(cfg, now);
    var policy := CloudFront.UrlSafeB64(Policy.PolicyBytes(expiry));
    var identityCookie := Identity.EncodeIdentityCookie(email, services.sign);
    CookieNamesPlain();
    ParseCookieLineRoundTrip(Policy.PolicyHeader, policy);
    ParseCookieLineRoundTrip(Policy.SignatureHeader, CloudFront.UrlSafeB64(services.sign(Policy.PolicyBytes(expiry))));
    ParseCookieLineRoundTrip(Policy.KeyPairIdHeader, cfg.keyPairId);
    ParseCookieLineRoundTrip(Identity.IdentityHeader, identityCookie[0].1);
    Policy.PolicyCookie(expiry);
  }

  /**
   * `auth_handler`. Anything but a POST whose token check yields an email gets the
   * 401 response; a string email gets the login response; the handler raises when
   * the body cannot be decoded, the check raises, or the email is not a string.
   */
  method AuthHandler(request: Request, cfg: Policy.Config, now: int, services: Services) returns (outcome: Outcome)
    ensures request.httpMethod != "POST" ==> outcome == Returned(Unauthorized)
    ensures request.httpMethod == "POST" && PostData(request, services).None? ==> outcome == Raised
    ensures request.httpMethod == "POST" && PostData(request, services).Some? ==>
      var check := TokenCheck(request, services, PostData(request, services).value);
      && (check.Raises? ==> outcome == Raised)
      && (check.NoEmail? || check == Email(JNull) ==> outcome == Returned(Unauthorized))
      && (check.Email? && !check.value.JNull? && !check.value.JStr? ==> outcome == Raised)
      && (check.Email? && check.value.JStr? ==>
            outcome.Returned? && LoginResponse(outcome.response, request, cfg, now, services, check.value.s))
  {
    var response := Unauthorized;
    if request.httpMethod == "POST" {
      var postData := request.body;
      if request.isBase64Encoded {
        var decoded := services.decodeBody(postData);
        if decoded.None? {
          return Raised;
        }
        postData := decoded.value;
      }
      var form := services.parse(postData);
      var identity := CheckOidcAuth(services.verify(Redirect.FirstValue(form, "id_token", "")));
      if identity.Raises? {
        return Raised;
      }
      if identity.Email? && !identity.value.JNull? {
        var cookies := Policy.GenSignature(cfg, now, services.sign);
        if !identity.value.JStr? {
          return Raised;
        }
        var identityCookie := Identity.EncodeIdentityCookie(identity.value.s, services.sign);
        UpdateWithIdentity(cookies, identityCookie);
        ghost var policyHeaders := cookies;
        cookies := Update(cookies, identityCookie);
        var lines := KvToCookies(cookies);
        LoginLines(policyHeaders, identityCookie, lines, Policy.ExpirationTime(cfg, now), cfg, services.sign, identity.value.s);
        response := Response(302, "", Some(Redirect.SetRedirect(services.parse(request.rawQueryString))), Some(lines), Some(false));
      }
    }
    return Returned(response);
  }
}
