/**
 * The CloudFront flavour of base64 used for every encoded value the handler emits:
 * standard padded base64 followed by the character translation table
 * `+` to `-`, `=` to `_`, `/` to `~` (data/lambda_handler.py:38, 44-46).
 */
module CloudFront {
  import opened Wrappers
  import opened Bytes
  import Base64

  /** The translation table built with `str.maketrans("+=/", "-_~")`. */
  const Table: map<char, char> := map['+' := '-', '=' := '_', '/' := '~']

  /** `str.translate` on one character: characters outside the table are kept. */
  function Remap(c: char): char {
    if c in Table then Table[c] else c
  }

  /** `str.translate` with the table, character by character. */
  function Translate(s: string): string
    decreases |s|
  {
    if |s| == 0 then [] else [Remap(s[0])] + Translate(s[1..])
  }

  /** The table read backwards: `-` to `+`, `_` to `=`, `~` to `/`. */
  function Unmap(c: char): char {
    if c == '-' then '+' else if c == '_' then '=' else if c == '~' then '/' else c
  }

  function Untranslate(t: string): string
    decreases |t|
  {
    if |t| == 0 then [] else [Unmap(t[0])] + Untranslate(t[1..])
  }

  /** The translation keeps the length and changes exactly the three table characters. */
  lemma {:induction false} TranslateAt(s: string)
    ensures |Translate(s)| == |s|
    ensures forall i :: 0 <= i < |s| ==>
      Translate(s)[i] == (if s[i] == '+' then '-' else if s[i] == '=' then '_' else if s[i] == '/' then '~' else s[i])
    decreases |s|
  {
    if |s| > 0 {
      TranslateAt(s[1..]);
      assert forall i :: 1 <= i < |s| ==> Translate(s)[i] == Translate(s[1..])[i - 1];
    }
  }

  /** A translated string never holds `+`, `=` or `/`. */
  lemma TranslateAvoids(s: string)
    ensures forall i :: 0 <= i < |Translate(s)| ==> Translate(s)[i] !in {'+', '=', '/'}
  {
    TranslateAt(s);
  }

  /** Reading the table backwards undoes it on strings that hold none of `-`, `_`, `~`. */
  lemma {:induction false} UntranslateTranslate(s: string)
    requires forall i :: 0 <= i < |s| ==> s[i] !in {'-', '_', '~'}
    ensures Untranslate(Translate(s)) == s
    decreases |s|
  {
    if |s| > 0 {
      UntranslateTranslate(s[1..]);
      assert Translate(s)[1..] == Translate(s[1..]);
    }
  }

  /** A character of the CloudFront alphabet: a base64 letter or digit, or `-`, `_`, `~`. */
  predicate IsCloudFrontChar(c: char) {
    ('A' <= c <= 'Z') || ('a' <= c <= 'z') || ('0' <= c <= '9') || c == '-' || c == '_' || c == '~'
  }

  /**
   * `cloudfront_urlsafe_b64`: base64 of the bytes, then the translation. The result
   * has the base64 length and uses only the CloudFront alphabet.
   */
  function UrlSafeB64(thing: seq<byte>): (r: string)
    ensures |r| == 4 * ((|thing| + 2) / 3)
    ensures forall i :: 0 <= i < |r| ==> IsCloudFrontChar(r[i])
  {
    var b64 := Base64.Encode(thing);
    Base64.EncodeLength(thing);
    Base64.EncodeAlphabet(thing);
    TranslateAt(b64);
    Translate(b64)
  }

  /** Undo the translation, then decode base64: the reference inverse of UrlSafeB64. */
  function Decode(t: string): Option<seq<byte>> {
    Base64.Decode(Untranslate(t))
  }

  /** Reversing the translation and base64-decoding recovers the input bytes. */
  lemma DecodeUrlSafeB64(thing: seq<byte>)
    ensures Decode(UrlSafeB64(thing)) == Some(thing)
  {
    var b64 := Base64.Encode(thing);
    Base64.EncodeAlphabet(thing);
    UntranslateTranslate(b64);
    Base64.DecodeEncode(thing);
  }

  /** Distinct inputs give distinct encodings. */
  lemma UrlSafeB64Injective(a: seq<byte>, b: seq<byte>)
    requires UrlSafeB64(a) == UrlSafeB64(b)
    ensures a == b
  {
    DecodeUrlSafeB64(a);
    DecodeUrlSafeB64(b);
  }
}
