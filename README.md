# Dengo login gateway: a Dafny model of the credential minting

This project models the part of `data/lambda_handler.py` that does not talk to the
outside world. That file is the Lambda behind the login of a CloudFront
signed-cookie gateway. It is given the form POST of an OpenID Connect provider. It
answers with a 302 redirect and four cookies when the token's `email_verified` claim
is truthy in Python's sense and its `email` claim is a string. Truthy means `true`, a
non-zero number, a non-empty list or object, or any non-empty string, the string
`"false"` included (`Auth.StringFalseVerified`). The four cookies are:

- a CloudFront policy that grants access until an expiry time;
- its RSA signature;
- the key-pair id;
- a signed identity cookie.

Anything else gets `401 Unauthorized`, except that the handler raises when the body
does not decode, when the token verifier fails other than by rejecting the token,
when a verified token has no `email`, or when the email is neither a string nor null.

Modules, one per concern:

- `Base64`: standard padded base64 (section 4 of RFC 4648) as `base64.b64encode` writes it, with a strict decoder as its reference inverse.
- `CloudFront`: `cloudfront_urlsafe_b64`, which is base64 followed by the translation `+`→`-`, `=`→`_`, `/`→`~`.
- `Utf8`: `str.encode("utf8")` over Unicode scalar values, with a decoder that rejects overlong and surrogate forms.
- `Decimal`: the decimal text of an `int` and the JSON integer grammar (section 6 of RFC 8259).
- `JsonString`: the string escaping of `json.dumps` with `ensure_ascii=True`, and a scanner for JSON string tokens (section 7 of RFC 8259).
- `Json`: JSON values and `json.dumps` with the default or the compact separators; objects keep insertion order.
- `Headers`: the handler's dicts as ordered entry sequences, and `kv_to_cookies`.
- `Policy`: `gen_signature`.
- `Identity`: `encode_identity_cookie`.
- `Redirect`: `set_redirect` and `urllib.parse.quote` (sections 2.1 and 2.3 of RFC 3986).
- `Auth`: `check_oidc_auth` and `auth_handler`.

Modelling choices:

- A Python dict is modelled as the sequence of its entries. Assigning to a present key replaces the entry in place; assigning to a new key appends it. `d.update(e)` assigns the entries of `e` in order.
- The imperative parts are methods: the loop of `kv_to_cookies`, the successive assignments of `gen_signature`, and the reassignments in `auth_handler`.
- The rest are functions.
- The clock (`int(time.time())`) and the environment settings are parameters (`now`, `Policy.Config`).
- The collaborators are function parameters bundled in `Auth.Services`:
  - `rsa.sign` with the loaded key;
  - the JWKS key lookup together with `jwt.decode`;
  - the base64 decoding of the body;
  - `urllib.parse.parse_qs`.
- A raised exception that leaves the handler is the outcome `Auth.Raised`.

For a `target_path` of `//evil.com`, `set_redirect` (data/lambda_handler.py:79-82)
removes only one leading slash and then puts one back, and `quote` keeps `/`. So the
`Location` is `//evil.com`, which is a network-path reference.
`Redirect.DoubleSlashKept` states this outcome.

## Model

| member | source | states |
|---|---|---|
| `Base64.EncodeAlphabet` | data/lambda_handler.py:44-45 | every character of `b64encode` output is a base64 letter, digit, `+`, `/` or the pad `=` |
| `Base64.EncodeLength` | data/lambda_handler.py:44-45 | the output has `4 * ceil(n / 3)` characters for `n` input bytes |
| `Base64.DecodeEncode` | data/lambda_handler.py:44-45 | strict decoding of the output gives back exactly the input bytes |
| `CloudFront.TranslateAt` | data/lambda_handler.py:38-46 | the translation keeps the length and changes exactly `+`, `=`, `/` at their positions, leaving every other character as it is |
| `CloudFront.TranslateAvoids` | data/lambda_handler.py:38-46 | after the translation no `+`, `=` or `/` is left |
| `CloudFront.UntranslateTranslate` | data/lambda_handler.py:38-46 | on text without `-`, `_`, `~` (all base64 output) the reverse table undoes the translation |
| `CloudFront.UrlSafeB64` | data/lambda_handler.py:44-46 | the encoding has `4 * ceil(n / 3)` characters, each an ASCII letter, a digit, `-`, `_` or `~` |
| `CloudFront.DecodeUrlSafeB64` | data/lambda_handler.py:44-46 | reversing the translation and then base64-decoding gives back the input bytes |
| `CloudFront.UrlSafeB64Injective` | data/lambda_handler.py:44-46 | distinct byte strings never share an encoding |
| `Utf8.EncodeChar` | data/lambda_handler.py:54 | a character becomes 1 to 4 bytes; exactly ASCII takes one byte, its code; the bytes of a longer form are all 0x80 or above |
| `Utf8.DecodeEncode` | data/lambda_handler.py:54 | decoding the UTF-8 bytes of a string gives back the string |
| `Utf8.EncodeAscii` | data/lambda_handler.py:54 | an ASCII string encodes to its character codes, one byte each |
| `Utf8.EncodeAppend` | data/lambda_handler.py:54 | encoding a concatenation is the concatenation of the encodings |
| `Decimal.FromIntRoundTrip` | data/lambda_handler.py:52-54 | the JSON integer grammar reads the written decimal back as the same integer, negative ones included |
| `Decimal.FromIntChars` | data/lambda_handler.py:52-54 | an integer is written as non-empty text of digits, with one leading `-` exactly when it is negative and nowhere else |
| `JsonString.EscapePrintable` | data/lambda_handler.py:72 | with `ensure_ascii` every escaped character is printable ASCII |
| `JsonString.EscapePlain` | data/lambda_handler.py:72 | text of printable ASCII without `"` or backslash is written unchanged |
| `JsonString.ScanEscapeChar` | data/lambda_handler.py:72 | the escape of any one character, the surrogate pairs past U+FFFF included, is read back as that character |
| `JsonString.ScanEscape` | data/lambda_handler.py:72 | scanning an escaped string and its closing quote gives the string back and stops right after the quote |
| `JsonString.EscapeInjective` | data/lambda_handler.py:72 | an escaped string followed by a quote determines both the string and what follows |
| `Json.DumpsPrintable` | data/lambda_handler.py:54 | with printable separators, all of `json.dumps` output is printable ASCII |
| `Json.CompactNoWhitespace` | data/lambda_handler.py:53-54 | with separators `(",", ":")`, a value with no space in its strings is written with no whitespace at all |
| `Headers.GetPut` | data/lambda_handler.py:56-58 | after `d[k] = v`, `k` holds `v` and every other key holds its old value |
| `Headers.KeysPut` | data/lambda_handler.py:56-58 | a present key keeps its place in the order; a new key goes last |
| `Headers.PutNew` | data/lambda_handler.py:56-58 | assigning a new key appends exactly that entry |
| `Headers.GetUpdateOther` | data/lambda_handler.py:109 | `d.update(e)` leaves the keys `e` does not mention with their old values |
| `Headers.GetUpdate` | data/lambda_handler.py:109 | after `d.update(e)` the keys of `e` hold the values of `e` and the others those of `d` |
| `Headers.ParseCookieLineRoundTrip` | data/lambda_handler.py:65 | a cookie line `k=v; Secure; HttpOnly` whose name has no `=` reads back as `(k, v)` |
| `Headers.KvToCookies` | data/lambda_handler.py:62-66 | one line per entry, in entry order; line `i` is `k_i=v_i; Secure; HttpOnly` |
| `Policy.PolicyText` | data/lambda_handler.py:52-54 | the policy text is exactly `{"Statement":[{"Condition":{"DateLessThan":{"AWS:EpochTime":` + decimal expiry + `}}}]}` |
| `Policy.PolicyExpiryRoundTrip` | data/lambda_handler.py:51-54 | the expiry is read back out of the policy text unchanged |
| `Policy.PolicyCompact` | data/lambda_handler.py:53-54 | the serialised policy contains no whitespace |
| `Policy.PolicyBytesAscii` | data/lambda_handler.py:54 | the policy bytes are the character codes of the policy text, one byte each |
| `Policy.PolicyCookie` | data/lambda_handler.py:54-56 | the `CloudFront-Policy` value decodes to the policy bytes and carries the expiry |
| `Policy.GenSignature` | data/lambda_handler.py:49-59 | exactly `CloudFront-Policy`, `CloudFront-Signature`, `CloudFront-Key-Pair-Id` in that order. The policy value encodes the very bytes given to the signer and carries `now + 86400 * days`. The signature value encodes the signer's output on those bytes. The key-pair id is unchanged |
| `Identity.IdentityText` | data/lambda_handler.py:72 | the document is `{"identity": "<escaped identity>", "signature": "<escaped signature>"}` with the default separators |
| `Identity.ReadIdentityTextRoundTrip` | data/lambda_handler.py:72 | the serialised document reads back as the identity and the signature it was written from |
| `Identity.SignatureVerbatim` | data/lambda_handler.py:70-72 | the base64 signature needs no JSON escaping |
| `Identity.EncodeIdentityCookie` | data/lambda_handler.py:69-73 | a single `Dengo-Identity` entry. Decoded, its value gives back the identity and the base64 signature of its UTF-8 bytes |
| `Identity.IdentityCookieInjective` | data/lambda_handler.py:69-73 | distinct identities never get the same cookie |
| `Redirect.FirstValue` | data/lambda_handler.py:77-78 | the value of the first entry with the key, or the default when there is none |
| `Redirect.QuoteBytesRoundTrip` | data/lambda_handler.py:81 | quoted bytes hold only safe characters and upper-case `%XX` escapes, and percent-decode back to the bytes |
| `Redirect.QuoteSafeText` | data/lambda_handler.py:81 | text made of ASCII letters, digits, `_.-~` and `/` is left unchanged by `quote` |
| `Redirect.SetRedirect` | data/lambda_handler.py:76-82 | the location starts with `/` and the rest is well quoted. Percent-decoded, it is the target with a `/` put in front only when the target had none |
| `Redirect.AbsentTarget` | data/lambda_handler.py:77-82 | without `target_path` the location is `/` |
| `Redirect.DoubleSlashKept` | data/lambda_handler.py:79-82 | only one slash is removed: `target_path=//evil.com` gives the location `//evil.com` |
| `Auth.CheckOidcAuth` | data/lambda_handler.py:85-96 | returns the `email` claim exactly when decoding succeeded, `email_verified` is present and truthy, and `email` is present. It raises on errors other than invalid tokens, and on a verified token without `email`. Otherwise it returns None |
| `Auth.StringFalseVerified` | data/lambda_handler.py:89-90 | a token whose `email_verified` is the string `"false"` counts as verified, because the test is for truthiness only |
| `Auth.UpdateWithIdentity` | data/lambda_handler.py:108-109 | updating the three policy headers with the identity cookie appends it as the fourth entry |
| `Auth.AuthHandler` | data/lambda_handler.py:99-120 | anything but a POST whose check yields an email gets `{401, "Unauthorized"}`, and so does a `null` email. A string email gets 302 with `Location = set_redirect(event)`, body `""`, `isBase64Encoded` false, and four cookie lines in the order policy, signature, key-pair id, identity. A body that cannot be decoded, a raising check, or a non-string email makes it raise |
| `Auth.LoginCookiesReadBack` | data/lambda_handler.py:99-120 | the four cookie lines of a login parse back to their names in order. The policy grants access until `now + 86400 * days`, the key-pair id is the configured one, and the identity cookie holds the email and its signature |

## Left out

- Loading the signing key from Secrets Manager (data/lambda_handler.py:20-28) is AWS network I/O. Signing is the parameter `Policy.Signer`, and nothing is proved about RSA-SHA1 signatures.
- Fetching the JWKS (data/lambda_handler.py:31-34) and looking up the signing key of a token (data/lambda_handler.py:87) are network I/O in a third-party library. They are folded into `Services.verify`.
- `jwt.decode` and its signature, expiry and audience checks are library internals. Verification is an abstract outcome: the claims, a caught `InvalidTokenError` (which includes `ExpiredSignatureError`), or any other exception. Which exception types those are is not modelled.
- `urllib.parse.parse_qs` (data/lambda_handler.py:77, 105) is a library parser and is the parameter `Services.parse`. Its handling of blank values and of `+` is therefore not modelled.
- The base64 decoding of a flagged body (data/lambda_handler.py:103-104) is the parameter `Services.decodeBody`. None stands for the exception it raises on bad input.
- `time.time()` and its truncation by `int` are the integer parameter `now`.
- `os.getenv` and the `int` parse of `SIGNATURE_EXPIRATION_DAYS` (data/lambda_handler.py:12-17) become the fields of `Policy.Config`.
- JSON numbers other than integers are not modelled, because the claims model has no floats. So neither is the truthiness of a float `email_verified`.
- Python strings may hold lone surrogates. Dafny characters are Unicode scalar values, so the `UnicodeEncodeError` of `identity.encode()` on such a string is not modelled.
- `Auth.AuthHandler`: the event is the record `Auth.Request`, with the `.get` defaults already applied. Its `headers` dict of the 302 response is the single field `location`.
- There is no concurrency in the file.
