/**
 * `gen_signature` (data/lambda_handler.py:49-59): the CloudFront policy that grants
 * access until an expiry time, its signature, and the three cookie headers
 * CloudFront reads. The clock, the configured key-pair id and validity, and the
 * RSA-SHA1 signer are parameters.
 */
module Policy {
  import opened Wrappers
  import opened Bytes
  import opened Headers
  import opened Json
  import JsonString
  import Decimal
  import Utf8
  import CloudFront

  const SecondsPerDay := 86400

  const PolicyHeader := "CloudFront-Policy"
  const SignatureHeader := "CloudFront-Signature"
  const KeyPairIdHeader := "CloudFront-Key-Pair-Id"

  /** The environment settings the signer uses: `SIGNING_KEY_ID` and `SIGNATURE_EXPIRATION_DAYS`. */
  datatype Config = Config(keyPairId: string, expirationDays: int)

  /** `rsa.sign(message, signing_key, "SHA-1")` with the process-wide key: opaque bytes. */
  type Signer = seq<byte> -> seq<byte>

  /** `shared_policy`: one statement whose only condition is `DateLessThan` the expiry. */
  function PolicyDocument(expiry: int): Json {
    JObj([("Statement", JArr([JObj([("Condition", JObj([("DateLessThan", JObj([("AWS:EpochTime", JInt(expiry))]))]))])]))])
  }

  /** `json.dumps(shared_policy, separators=(",", ":"))`. */
  function PolicyJson(expiry: int): string {
    Dumps(PolicyDocument(expiry), CompactSeparators)
  }

  /** `shared_policy_json_bytes`: the bytes that are signed and sent. */
  function PolicyBytes(expiry: int): seq<byte> {
    Utf8.Encode(PolicyJson(expiry))
  }

  /** The text in front of the decimal expiry: the four keys and the opening brackets. */
  const PolicyPrefix := "{\"Statement\":" + "[" + "{\"Condition\":" + "{\"DateLessThan\":" + "{\"AWS:EpochTime\":"
  /** The text after the decimal expiry: the closing brackets. */
  const PolicySuffix := "}" + "}" + "}" + "]" + "}"

  /** The opening `{"k":` of a one-member object whose key needs no escaping. */
  lemma OneMember(k: string, v: Json, opening: string)
    requires forall c :: c in k ==> JsonString.IsPlain(c)
    requires opening == "{\"" + k + "\":"
    ensures Dumps(JObj([(k, v)]), CompactSeparators) == opening + Dumps(v, CompactSeparators) + "}"
  {
    QuotePlain(k);
    DumpsOneMember(k, v, CompactSeparators);
    Merge("{", "\"" + k + "\"", ":", opening, Dumps(v, CompactSeparators) + "}");
  }

  /** A regrouping step for the solver: a known three-piece prefix replaced by its value. */
  lemma Merge(a: string, b: string, c: string, abc: string, rest: string)
    requires abc == a + b + c
    ensures a + b + c + rest == abc + rest
  {
  }

  lemma EpochTimeMember(v: Json)
    ensures Dumps(JObj([("AWS:EpochTime", v)]), CompactSeparators) == "{\"AWS:EpochTime\":" + Dumps(v, CompactSeparators) + "}"
  {
    assert forall c :: c in "AWS:EpochTime" ==> JsonString.IsPlain(c);
    assert "{\"AWS:EpochTime\":" == "{\"" + "AWS:EpochTime" + "\":";
    OneMember("AWS:EpochTime", v, "{\"AWS:EpochTime\":");
  }

  lemma DateLessThanMember(v: Json)
    ensures Dumps(JObj([("DateLessThan", v)]), CompactSeparators) == "{\"DateLessThan\":" + Dumps(v, CompactSeparators) + "}"
  {
    assert forall c :: c in "DateLessThan" ==> JsonString.IsPlain(c);
    assert "{\"DateLessThan\":" == "{\"" + "DateLessThan" + "\":";
    OneMember("DateLessThan", v, "{\"DateLessThan\":");
  }

  lemma ConditionMember(v: Json)
    ensures Dumps(JObj([("Condition", v)]), CompactSeparators) == "{\"Condition\":" + Dumps(v, CompactSeparators) + "}"
  {
    assert forall c :: c in "Condition" ==> JsonString.IsPlain(c);
    assert "{\"Condition\":" == "{\"" + "Condition" + "\":";
    OneMember("Condition", v, "{\"Condition\":");
  }

  lemma StatementMember(v: Json)
    ensures Dumps(JObj([("Statement", v)]), CompactSeparators) == "{\"Statement\":" + Dumps(v, CompactSeparators) + "}"
  {
    assert forall c :: c in "Statement" ==> JsonString.IsPlain(c);
    assert "{\"Statement\":" == "{\"" + "Statement" + "\":";
    OneMember("Statement", v, "{\"Statement\":");
  }

  /**
   * The policy text is exactly
   * `{"Statement":[{"Condition":{"DateLessThan":{"AWS:EpochTime":` + expiry + `}}}]}`.
   */
  lemma PolicyText(expiry: int)
    ensures PolicyJson(expiry) == PolicyPrefix + Decimal.FromInt(expiry) + PolicySuffix
  {
    var v4 := JObj([("AWS:EpochTime", JInt(expiry))]);
    var v3 := JObj([("DateLessThan", v4)]);
    var v2 := JObj([("Condition", v3)]);
    EpochTimeMember(JInt(expiry));
    DateLessThanMember(v4);
    ConditionMember(v3);
    DumpsOneItem(v2, CompactSeparators);
    StatementMember(JArr([v2]));
    Assemble(Decimal.FromInt(expiry));
  }

  /** A regrouping step for the solver: the nested policy text as prefix, expiry, suffix. */
  lemma Assemble(d: string)
    ensures "{\"Statement\":" + ("[" + ("{\"Condition\":" + ("{\"DateLessThan\":" + ("{\"AWS:EpochTime\":" + d + "}") + "}") + "}") + "]") + "}"
         == PolicyPrefix + d + PolicySuffix
  {
    Nest("{\"Statement\":", "[", "{\"Condition\":", "{\"DateLessThan\":", "{\"AWS:EpochTime\":", d, "}", "}", "}", "]", "}");
  }

  /** A regrouping step for the solver: five openings around a middle, closed in reverse order, read left to right. */
  lemma Nest(o1: string, o2: string, o3: string, o4: string, o5: string, d: string,
             c5: string, c4: string, c3: string, c2: string, c1: string)
    ensures o1 + (o2 + (o3 + (o4 + (o5 + d + c5) + c4) + c3) + c2) + c1
         == (o1 + o2 + o3 + o4 + o5) + d + (c5 + c4 + c3 + c2 + c1)
  {
  }

  /** Every key of the policy document is free of spaces. */
  lemma PolicySpaceFree(expiry: int)
    ensures SpaceFree(PolicyDocument(expiry))
  {
    var v4 := JObj([("AWS:EpochTime", JInt(expiry))]);
    var v3 := JObj([("DateLessThan", v4)]);
    var v2 := JObj([("Condition", v3)]);
    assert ' ' !in "AWS:EpochTime" && ' ' !in "DateLessThan" && ' ' !in "Condition" && ' ' !in "Statement";
    assert SpaceFree(v4);
    assert SpaceFree(v3);
    assert SpaceFree(v2);
    assert SpaceFree(JArr([v2]));
  }

  /** Reads the expiry back out of a policy text of this shape, or None. */
  function PolicyExpiry(json: string): Option<int> {
    var p, q := |PolicyPrefix|, |PolicySuffix|;
    if |json| < p + q || json[..p] != PolicyPrefix || json[|json| - q..] != PolicySuffix then None
    else Decimal.ToInt(json[p..|json| - q])
  }

  /** The expiry carried by a `CloudFront-Policy` cookie value, or None. */
  function EmbeddedExpiry(value: string): Option<int> {
    match CloudFront.Decode(value)
    case None => None
    case Some(bytes) =>
      match Utf8.Decode(bytes)
      case None => None
      case Some(json) => PolicyExpiry(json)
  }

  /** The policy text carries its expiry and nothing else that varies. */
  lemma PolicyExpiryRoundTrip(expiry: int)
    ensures PolicyExpiry(PolicyJson(expiry)) == Some(expiry)
  {
    PolicyText(expiry);
    var json := PolicyJson(expiry);
    var p, q := |PolicyPrefix|, |PolicySuffix|;
    assert json[..p] == PolicyPrefix;
    assert json[|json| - q..] == PolicySuffix;
    assert json[p..|json| - q] == Decimal.FromInt(expiry);
    Decimal.FromIntRoundTrip(expiry);
  }

  /** The serialisation is compact: no whitespace anywhere. */
  lemma PolicyCompact(expiry: int)
    ensures NoWhitespace(PolicyJson(expiry))
  {
    PolicySpaceFree(expiry);
    CompactNoWhitespace(PolicyDocument(expiry));
  }

  /** The policy text is printable ASCII, so its bytes are its character codes, one each. */
  lemma PolicyBytesAscii(expiry: int)
    ensures |PolicyBytes(expiry)| == |PolicyJson(expiry)|
    ensures forall i :: 0 <= i < |PolicyJson(expiry)| ==> PolicyBytes(expiry)[i] == PolicyJson(expiry)[i] as int
  {
    var json := PolicyJson(expiry);
    DumpsPrintable(PolicyDocument(expiry), CompactSeparators);
    assert forall i :: 0 <= i < |json| ==> json[i] as int < 0x80 by {
      forall i | 0 <= i < |json| ensures json[i] as int < 0x80 {
        assert JsonString.IsPrintableAscii(json[i]);
      }
    }
    Utf8.EncodeAscii(json);
  }

  /** The `CloudFront-Policy` value decodes to the policy bytes, which carry the expiry. */
  lemma PolicyCookie(expiry: int)
    ensures CloudFront.Decode(CloudFront.UrlSafeB64(PolicyBytes(expiry))) == Some(PolicyBytes(expiry))
    ensures EmbeddedExpiry(CloudFront.UrlSafeB64(PolicyBytes(expiry))) == Some(expiry)
  {
    CloudFront.DecodeUrlSafeB64(PolicyBytes(expiry));
    Utf8.DecodeEncode(PolicyJson(expiry));
    PolicyExpiryRoundTrip(expiry);
  }

  lemma HeaderNamesDistinct()
    ensures PolicyHeader != SignatureHeader && PolicyHeader != KeyPairIdHeader && SignatureHeader != KeyPairIdHeader
  {
    assert PolicyHeader[11] == 'P' && SignatureHeader[11] == 'S' && KeyPairIdHeader[11] == 'K';
  }

  /** Three assignments of distinct keys into an empty dict keep them in assignment order. */
  lemma PutThree(a: string, x: string, b: string, y: string, c: string, z: string)
    requires a != b && a != c && b != c
    ensures Put(Put(Put([], a, x), b, y), c, z) == [(a, x), (b, y), (c, z)]
  {
    assert Put([], a, x) == [(a, x)];
    assert Put([(a, x)], b, y) == [(a, x)] + Put([], b, y);
    assert Put([(a, x), (b, y)], c, z) == [(a, x)] + Put([(b, y)], c, z);
    assert Put([(b, y)], c, z) == [(b, y)] + Put([], c, z);
  }

  lemma HeaderKeys(x: string, y: string, z: string)
    ensures Keys([(PolicyHeader, x), (SignatureHeader, y), (KeyPairIdHeader, z)]) == [PolicyHeader, SignatureHeader, KeyPairIdHeader]
  {
  }

  /** What the three header values say, once they are in place. */
  lemma SignatureHeaderFacts(expiry: int, sign: Signer, keyPairId: string, headers: Dict)
    requires headers == [(PolicyHeader, CloudFront.UrlSafeB64(PolicyBytes(expiry))),
                         (SignatureHeader, CloudFront.UrlSafeB64(sign(PolicyBytes(expiry)))),
                         (KeyPairIdHeader, keyPairId)]
    ensures Keys(headers) == [PolicyHeader, SignatureHeader, KeyPairIdHeader]
    ensures EmbeddedExpiry(headers[0].1) == Some(expiry)
    ensures CloudFront.Decode(headers[0].1) == Some(PolicyBytes(expiry))
  {
    PolicyCookie(expiry);
    HeaderKeys(headers[0].1, headers[1].1, keyPairId);
  }

  /** `expire_time`: the configured number of days after `now`, in seconds. */
  function ExpirationTime(cfg: Config, now: int): int {
    now + SecondsPerDay * cfg.expirationDays
  }

  /**
   * `gen_signature`: the dict is filled with the encoded policy granting access until
   * `ExpirationTime`, the encoded signature of the very same bytes, and the key-pair id.
   */
  method GenSignature(cfg: Config, now: int, sign: Signer) returns (headers: Dict)
    ensures Keys(headers) == [PolicyHeader, SignatureHeader, KeyPairIdHeader]
    ensures headers[0].1 == CloudFront.UrlSafeB64(PolicyBytes(ExpirationTime(cfg, now)))
    ensures EmbeddedExpiry(headers[0].1) == Some(ExpirationTime(cfg, now))
    ensures CloudFront.Decode(headers[0].1) == Some(PolicyBytes(ExpirationTime(cfg, now)))
    ensures headers[1].1 == CloudFront.UrlSafeB64(sign(PolicyBytes(ExpirationTime(cfg, now))))
    ensures headers[2].1 == cfg.keyPairId
  {
    headers := [];
    var expirationTime := ExpirationTime(cfg, now);
    var sharedPolicyJsonBytes := PolicyBytes(expirationTime);
    var signature := sign(sharedPolicyJsonBytes);
    var policy, sig := CloudFront.UrlSafeB64(sharedPolicyJsonBytes), CloudFront.UrlSafeB64(signature);
    headers := Put(headers, PolicyHeader, policy);
    headers := Put(headers, SignatureHeader, sig);
    headers := Put(headers, KeyPairIdHeader, cfg.keyPairId);
    HeaderNamesDistinct();
    PutThree(PolicyHeader, policy, SignatureHeader, sig, KeyPairIdHeader, cfg.keyPairId);
    SignatureHeaderFacts(expirationTime, sign, cfg.keyPairId, headers);
  }
}
