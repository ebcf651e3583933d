/**
 * `set_redirect` (data/lambda_handler.py:76-82): the `Location` of a successful
 * login. The `target_path` query parameter loses at most one leading `/`, is
 * percent-encoded as `urllib.parse.quote` does with its default `safe="/"`, and is
 * put behind a single `/`.
 */
module Redirect {
  import opened Wrappers
  import opened Bytes
  import Utf8

  /** A parsed query string: its parameters in order, as `parse_qsl` lists them. */
  type Query = seq<(string, string)>

  /** `parse_qs(q).get(key, [default])[0]`: the value of the first entry for `key`, or `default`. */
  function FirstValue(q: Query, key: string, default: string): (v: string)
    ensures (forall i :: 0 <= i < |q| ==> q[i].0 != key) ==> v == default
    ensures forall i :: 0 <= i < |q| && q[i].0 == key && (forall j :: 0 <= j < i ==> q[j].0 != key) ==> v == q[i].1
    decreases |q|
  {
    if |q| == 0 then default
    else if q[0].0 == key then q[0].1
    else
      var v := FirstValue(q[1..], key, default);
      assert forall i :: 1 <= i < |q| ==> q[i] == q[1..][i - 1];
      v
  }

  /** Drops one leading `/`, if there is one. */
  function StripOneSlash(t: string): string {
    if |t| > 0 && t[0] == '/' then t[1..] else t
  }

  /** Bytes `quote` never escapes: ASCII letters and digits, `_.-~`, and the `safe` character `/`. */
  predicate IsSafe(b: byte) {
    ('A' as int <= b <= 'Z' as int) || ('a' as int <= b <= 'z' as int) || ('0' as int <= b <= '9' as int)
    || b == '_' as int || b == '.' as int || b == '-' as int || b == '~' as int || b == '/' as int
  }

  /** An upper-case hexadecimal digit. */
  function UpperHexDigit(d: int): (c: char)
    requires 0 <= d < 16
  {
    if d < 10 then ('0' as int + d) as char else ('A' as int + d - 10) as char
  }

  predicate IsUpperHex(c: char) {
    ('0' <= c <= '9') || ('A' <= c <= 'F')
  }

  /** The value of a hexadecimal digit of either case, as `unquote` reads it. */
  function PercentHexValue(c: char): Option<int> {
    if '0' <= c <= '9' then Some(c as int - '0' as int)
    else if 'A' <= c <= 'F' then Some(c as int - 'A' as int + 10)
    else if 'a' <= c <= 'f' then Some(c as int - 'a' as int + 10)
    else None
  }

  /** One byte as `quote` writes it: itself, or `%` and two upper-case hex digits. */
  function QuoteByte(b: byte): string {
    if IsSafe(b) then [b as char] else ['%', UpperHexDigit(b / 16), UpperHexDigit(b % 16)]
  }

  function QuoteBytes(bs: seq<byte>): string
    decreases |bs|
  {
    if |bs| == 0 then "" else QuoteByte(bs[0]) + QuoteBytes(bs[1..])
  }

  /** `urllib.parse.quote(s)`: the UTF-8 bytes of `s`, escaped byte by byte. */
  function Quote(s: string): string {
    QuoteBytes(Utf8.Encode(s))
  }

  /** Text made only of safe characters and well-formed upper-case `%XX` escapes. */
  predicate WellQuoted(s: string)
    decreases |s|
  {
    if |s| == 0 then true
    else if s[0] == '%' then |s| >= 3 && IsUpperHex(s[1]) && IsUpperHex(s[2]) && WellQuoted(s[3..])
    else s[0] as int < 256 && IsSafe(s[0] as int) && WellQuoted(s[1..])
  }

  /** Percent-decoding to bytes: the reference inverse of `QuoteBytes`; None on a malformed escape or a non-ASCII character. */
  function Unquote(s: string): Option<seq<byte>>
    decreases |s|
  {
    if |s| == 0 then Some([])
    else if s[0] == '%' then
      if |s| < 3 then None
      else
        match (PercentHexValue(s[1]), PercentHexValue(s[2]))
        case (Some(hi), Some(lo)) =>
          (match Unquote(s[3..])
           case None => None
           case Some(rest) => Some([hi * 16 + lo] + rest))
        case _ => None
    else if s[0] as int < 0x80 then
      match Unquote(s[1..])
      case None => None
      case Some(rest) => Some([s[0] as int] + rest)
    else None
  }

  lemma QuoteByteShape(b: byte, rest: string)
    ensures WellQuoted(rest) ==> WellQuoted(QuoteByte(b) + rest)
    ensures Unquote(QuoteByte(b) + rest) == (match Unquote(rest) case None => None case Some(r) => Some([b] + r))
  {
    var t := QuoteByte(b) + rest;
    if IsSafe(b) {
      assert t[1..] == rest;
    } else {
      assert PercentHexValue(UpperHexDigit(b / 16)) == Some(b / 16) && PercentHexValue(UpperHexDigit(b % 16)) == Some(b % 16);
      assert t[3..] == rest;
    }
  }

  /** Quoted bytes are well formed and percent-decode back to the bytes. */
  lemma {:induction false} QuoteBytesRoundTrip(bs: seq<byte>)
    ensures WellQuoted(QuoteBytes(bs))
    ensures Unquote(QuoteBytes(bs)) == Some(bs)
    decreases |bs|
  {
    if |bs| > 0 {
      QuoteBytesRoundTrip(bs[1..]);
      QuoteByteShape(bs[0], QuoteBytes(bs[1..]));
      assert [bs[0]] + bs[1..] == bs;
    }
  }

  /**
   * `set_redirect`: a single `/` followed by the quoted target; percent-decoded, it
   * is the target with a leading `/` added only when it had none.
   */
  function SetRedirect(params: Query): (location: string)
    ensures |location| >= 1 && location[0] == '/' && WellQuoted(location[1..])
    ensures var target := FirstValue(params, "target_path", "");
      Unquote(location) == Some(Utf8.Encode(if |target| > 0 && target[0] == '/' then target else "/" + target))
  {
    var returnTarget := StripOneSlash(FirstValue(params, "target_path", ""));
    var location := "/" + Quote(returnTarget);
    RedirectRoundTrip(FirstValue(params, "target_path", ""));
    location
  }

  lemma RedirectRoundTrip(target: string)
    ensures var location := "/" + Quote(StripOneSlash(target));
      location[1..] == Quote(StripOneSlash(target)) && WellQuoted(location[1..])
      && Unquote(location) == Some(Utf8.Encode(if |target| > 0 && target[0] == '/' then target else "/" + target))
  {
    var stripped := StripOneSlash(target);
    var location := "/" + Quote(stripped);
    QuoteBytesRoundTrip(Utf8.Encode(stripped));
    assert location[1..] == Quote(stripped);
    Utf8.EncodeAppend("/", stripped);
    assert Utf8.Encode("/") == ['/' as int];
    if |target| > 0 && target[0] == '/' {
      assert "/" + stripped == target;
    }
  }

  /** With no `target_path`, the user goes to the site root. */
  lemma AbsentTarget(params: Query)
    requires forall i :: 0 <= i < |params| ==> params[i].0 != "target_path"
    ensures SetRedirect(params) == "/"
  {
  }

  /** Text of safe ASCII characters is left as it is. */
  lemma {:induction false} QuoteSafeText(s: string)
    requires forall c :: c in s ==> c as int < 0x80 && IsSafe(c as int)
    ensures Quote(s) == s
    decreases |s|
  {
    if |s| > 0 {
      assert s[0] in s;
      assert forall c :: c in s[1..] ==> c in s;
      QuoteSafeText(s[1..]);
      Utf8.EncodeAppend([s[0]], s[1..]);
      assert [s[0]] + s[1..] == s;
      assert Utf8.Encode([s[0]]) == [s[0] as int];
    }
  }

  /** Only one leading slash is removed: `//evil.com` stays a network-path reference. */
  lemma DoubleSlashKept()
    ensures SetRedirect([("target_path", "//evil.com")]) == "//evil.com"
  {
    assert FirstValue([("target_path", "//evil.com")], "target_path", "") == "//evil.com";
    assert StripOneSlash("//evil.com") == "/evil.com";
    assert forall c :: c in "/evil.com" ==> c as int < 0x80 && IsSafe(c as int);
    QuoteSafeText("/evil.com");
  }
}
