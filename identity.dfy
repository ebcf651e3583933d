/**
 * `encode_identity_cookie` (data/lambda_handler.py:69-73): the `Dengo-Identity`
 * cookie. It carries a JSON object with the identity and the standard base64 of the
 * identity's RSA signature, written with `json.dumps` defaults and encoded with the
 * CloudFront alphabet.
 */
module Identity {
  import opened Wrappers
  import opened Bytes
  import opened Headers
  import opened Json
  import JsonString
  import Base64
  import Utf8
  import CloudFront
  import Policy

  const IdentityHeader := "Dengo-Identity"

  /** `base64.b64encode(rsa.sign(identity.encode(), signing_key, "SHA-1")).decode()`. */
  function IdentitySignature(identity: string, sign: Policy.Signer): string {
    Base64.Encode(sign(Utf8.Encode(identity)))
  }

  /** `{"identity": identity, "signature": signature}`, in that order. */
  function IdentityDocument(identity: string, signature: string): Json {
    JObj([("identity", JStr(identity)), ("signature", JStr(signature))])
  }

  /** `sig_data`: the document as `json.dumps` writes it by default, in UTF-8. */
  function SigData(identity: string, sign: Policy.Signer): seq<byte> {
    Utf8.Encode(Dumps(IdentityDocument(identity, IdentitySignature(identity, sign)), DefaultSeparators))
  }

  /** The text in front of the escaped identity, up to its opening quote. */
  const IdentityOpening := "{\"identity\": \""
  /** The text after the identity's closing quote, up to the signature's opening quote. */
  const SignatureOpening := ", \"signature\": \""

  lemma QuotedIdentityKey()
    ensures Quote("identity") == "\"" + "identity" + "\""
  {
    assert forall c :: c in "identity" ==> JsonString.IsPlain(c);
    QuotePlain("identity");
  }

  lemma QuotedSignatureKey()
    ensures Quote("signature") == "\"" + "signature" + "\""
  {
    assert forall c :: c in "signature" ==> JsonString.IsPlain(c);
    QuotePlain("signature");
  }

  /** A regrouping step for the solver: the quoted keys and their punctuation merged into the two openings. */
  lemma OpeningsMerge()
    ensures "{" + ("\"" + "identity" + "\"") + ": " + "\"" == IdentityOpening
    ensures ", " + ("\"" + "signature" + "\"") + ": " + "\"" == SignatureOpening
  {
  }

  /** A regrouping step for the solver: the document's pieces brought into the order the reader scans them. */
  lemma Regroup(a: string, b: string, c: string, d: string, e: string, f: string, g: string,
                h: string, i: string, j: string, k: string, l: string, m: string)
    ensures a + (b + c + (d + e + f)) + g + (h + i + (j + k + l)) + m
         == (a + b + c + d) + (e + f + ((g + h + i + j) + (k + l + m)))
  {
  }

  /** The serialised document: the identity, then the signature, each escaped and quoted. */
  lemma IdentityText(identity: string, signature: string)
    ensures Dumps(IdentityDocument(identity, signature), DefaultSeparators)
         == IdentityOpening + (JsonString.Escape(identity) + "\""
            + (SignatureOpening + (JsonString.Escape(signature) + "\"" + "}")))
  {
    DumpsTwoMembers("identity", JStr(identity), "signature", JStr(signature), DefaultSeparators);
    QuotedIdentityKey();
    QuotedSignatureKey();
    OpeningsMerge();
    Regroup("{", Quote("identity"), ": ", "\"", JsonString.Escape(identity), "\"",
            ", ", Quote("signature"), ": ", "\"", JsonString.Escape(signature), "\"", "}");
  }

  /** Reads the identity and the signature back out of a document of this shape, or None. */
  function ReadIdentityText(text: string): Option<(string, string)> {
    var p, q := |IdentityOpening|, |SignatureOpening|;
    if |text| < p || text[..p] != IdentityOpening then None
    else
      match JsonString.Scan(text[p..])
      case None => None
      case Some(first) =>
        var after := first.1;
        if |after| < q || after[..q] != SignatureOpening then None
        else
          match JsonString.Scan(after[q..])
          case None => None
          case Some(second) => if second.1 == "}" then Some((first.0, second.0)) else None
  }

  /** The identity and the signature carried by a `Dengo-Identity` cookie value, or None. */
  function ReadIdentityCookie(value: string): Option<(string, string)> {
    match CloudFront.Decode(value)
    case None => None
    case Some(bytes) =>
      match Utf8.Decode(bytes)
      case None => None
      case Some(text) => ReadIdentityText(text)
  }

  /** A regrouping step for the solver: the two halves of a concatenation taken apart again. */
  lemma Split(a: string, b: string)
    ensures |a + b| >= |a| && (a + b)[..|a|] == a && (a + b)[|a|..] == b
  {
  }

  /** Reading after the identity: the signature, then the closing brace. */
  lemma ReadSignatureRoundTrip(signature: string, tail: string)
    requires tail == SignatureOpening + (JsonString.Escape(signature) + "\"" + "}")
    ensures |tail| >= |SignatureOpening| && tail[..|SignatureOpening|] == SignatureOpening
    ensures JsonString.Scan(tail[|SignatureOpening|..]) == Some((signature, "}"))
  {
    Split(SignatureOpening, JsonString.Escape(signature) + "\"" + "}");
    JsonString.ScanEscape(signature, "}");
  }

  /** The document is read back as the identity and the signature it was written from. */
  lemma ReadIdentityTextRoundTrip(identity: string, signature: string)
    ensures ReadIdentityText(Dumps(IdentityDocument(identity, signature), DefaultSeparators)) == Some((identity, signature))
  {
    IdentityText(identity, signature);
    var tail := SignatureOpening + (JsonString.Escape(signature) + "\"" + "}");
    var body := JsonString.Escape(identity) + "\"" + tail;
    var text := IdentityOpening + body;
    Split(IdentityOpening, body);
    JsonString.ScanEscape(identity, tail);
    assert JsonString.Scan(text[|IdentityOpening|..]) == Some((identity, tail));
    ReadSignatureRoundTrip(signature, tail);
  }

  /** The signature is base64 text, which JSON writes without any escape. */
  lemma SignatureVerbatim(identity: string, sign: Policy.Signer)
    ensures JsonString.Escape(IdentitySignature(identity, sign)) == IdentitySignature(identity, sign)
  {
    var s := IdentitySignature(identity, sign);
    Base64.EncodeAlphabet(sign(Utf8.Encode(identity)));
    forall c | c in s ensures JsonString.IsPlain(c) {
      var i :| 0 <= i < |s| && s[i] == c;
    }
    JsonString.EscapePlain(s);
  }

  /**
   * `encode_identity_cookie`: a one-entry dict whose value, decoded, gives back the
   * identity and its base64 signature.
   */
  function EncodeIdentityCookie(identity: string, sign: Policy.Signer): (cookie: Dict)
    ensures Keys(cookie) == [IdentityHeader]
    ensures ReadIdentityCookie(cookie[0].1) == Some((identity, IdentitySignature(identity, sign)))
  {
    var sigData := SigData(identity, sign);
    CloudFront.DecodeUrlSafeB64(sigData);
    Utf8.DecodeEncode(Dumps(IdentityDocument(identity, IdentitySignature(identity, sign)), DefaultSeparators));
    ReadIdentityTextRoundTrip(identity, IdentitySignature(identity, sign));
    [(IdentityHeader, CloudFront.UrlSafeB64(sigData))]
  }

  /** Distinct identities never share a cookie value. */
  lemma IdentityCookieInjective(a: string, b: string, sign: Policy.Signer)
    requires EncodeIdentityCookie(a, sign) == EncodeIdentityCookie(b, sign)
    ensures a == b
  {
    var ca, cb := EncodeIdentityCookie(a, sign), EncodeIdentityCookie(b, sign);
    assert ca[0].1 == cb[0].1;
  }
}
