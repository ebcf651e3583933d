/**
 * The body of a JSON string as Python's `json.dumps` writes it with its default
 * `ensure_ascii=True`: printable ASCII other than `"` and backslash is kept,
 * backslash, `"`, backspace, form feed, newline, carriage return and tab get their
 * two-character escapes, and every other character becomes `\u` with four
 * lower-case hex digits (a surrogate pair past U+FFFF). The scanner reads a string
 * token as section 7 of RFC 8259 defines it and is the reference inverse.
 */
module JsonString {
  import opened Wrappers

  /** A lower-case hexadecimal digit, as `json.dumps` writes it in `\u` escapes. */
  function LowerHexDigit(d: int): (c: char)
    requires 0 <= d < 16
  {
    if d < 10 then ('0' as int + d) as char else ('a' as int + d - 10) as char
  }

  predicate IsHexDigit(c: char) {
    ('0' <= c <= '9') || ('a' <= c <= 'f') || ('A' <= c <= 'F')
  }

  function JsonHexValue(c: char): (d: int)
    requires IsHexDigit(c)
    ensures 0 <= d < 16
  {
    if '0' <= c <= '9' then c as int - '0' as int
    else if 'a' <= c <= 'f' then c as int - 'a' as int + 10
    else c as int - 'A' as int + 10
  }

  /** Four lower-case hex digits of a 16-bit value, as `'{0:04x}'.format(n)`. */
  function Hex4(n: int): (q: string)
    requires 0 <= n < 0x10000
  {
    [LowerHexDigit(n / 4096), LowerHexDigit(n / 256 % 16), LowerHexDigit(n / 16 % 16), LowerHexDigit(n % 16)]
  }

  predicate IsHex4(q: string) {
    |q| == 4 && IsHexDigit(q[0]) && IsHexDigit(q[1]) && IsHexDigit(q[2]) && IsHexDigit(q[3])
  }

  function Hex4Value(q: string): (n: int)
    requires IsHex4(q)
    ensures 0 <= n < 0x10000
  {
    JsonHexValue(q[0]) * 4096 + JsonHexValue(q[1]) * 256 + JsonHexValue(q[2]) * 16 + JsonHexValue(q[3])
  }

  lemma Hex4RoundTrip(n: int)
    requires 0 <= n < 0x10000
    ensures IsHex4(Hex4(n)) && Hex4Value(Hex4(n)) == n
  {
    var q := Hex4(n);
    assert n / 256 == n / 4096 * 16 + n / 256 % 16;
    assert n / 16 == n / 256 * 16 + n / 16 % 16;
    assert JsonHexValue(q[0]) == n / 4096 && JsonHexValue(q[1]) == n / 256 % 16;
    assert JsonHexValue(q[2]) == n / 16 % 16 && JsonHexValue(q[3]) == n % 16;
  }

  /** `\uXXXX`. */
  function UnicodeEscape(n: int): string
    requires 0 <= n < 0x10000
  {
    "\\u" + Hex4(n)
  }

  /** The escape of one character. */
  function EscapeChar(c: char): string {
    var n := c as int;
    if c == '"' then "\\\""
    else if c == '\\' then "\\\\"
    else if n == 0x08 then "\\b"
    else if n == 0x0C then "\\f"
    else if c == '\n' then "\\n"
    else if c == '\r' then "\\r"
    else if c == '\t' then "\\t"
    else if 0x20 <= n <= 0x7E then [c]
    else if n < 0x10000 then UnicodeEscape(n)
    else UnicodeEscape(0xD800 + (n - 0x10000) / 1024) + UnicodeEscape(0xDC00 + (n - 0x10000) % 1024)
  }

  /** The body of the JSON string for `s`, without the enclosing quotes. */
  function Escape(s: string): string
    decreases |s|
  {
    if |s| == 0 then [] else EscapeChar(s[0]) + Escape(s[1..])
  }

  /** Puts `c` in front of the characters a scan found. */
  function Cons(c: char, rest: Option<(string, string)>): Option<(string, string)> {
    match rest
    case None => None
    case Some(r) => Some(([c] + r.0, r.1))
  }

  /** The character of a two-character escape, for the letter after the backslash. */
  function ShortEscape(e: char): Option<char> {
    if e == '"' then Some('"')
    else if e == '\\' then Some('\\')
    else if e == '/' then Some('/')
    else if e == 'b' then Some(8 as char)
    else if e == 'f' then Some(12 as char)
    else if e == 'n' then Some('\n')
    else if e == 'r' then Some('\r')
    else if e == 't' then Some('\t')
    else None
  }

  /**
   * Reads the body of a JSON string up to its closing `"`: the characters it
   * denotes and the text after the quote, or None when it hits the end, a bare
   * control character, an unknown escape or an unpaired surrogate.
   */
  function Scan(t: string): Option<(string, string)>
    decreases |t|
  {
    if |t| == 0 then None
    else if t[0] == '"' then Some(([], t[1..]))
    else if t[0] == '\\' then
      if |t| < 2 then None
      else if t[1] == 'u' then
        if |t| < 6 || !IsHex4(t[2..6]) then None
        else
          var u := Hex4Value(t[2..6]);
          if 0xD800 <= u < 0xDC00 then
            if |t| >= 12 && t[6] == '\\' && t[7] == 'u' && IsHex4(t[8..12])
               && 0xDC00 <= Hex4Value(t[8..12]) < 0xE000 then
              Cons((0x10000 + (u - 0xD800) * 1024 + (Hex4Value(t[8..12]) - 0xDC00)) as char, Scan(t[12..]))
            else None
          else if 0xDC00 <= u < 0xE000 then None
          else Cons(u as char, Scan(t[6..]))
      else
        match ShortEscape(t[1])
        case None => None
        case Some(c) => Cons(c, Scan(t[2..]))
    else if t[0] as int < 0x20 then None
    else Cons(t[0], Scan(t[1..]))
  }

  /** Printable ASCII: what `ensure_ascii` output is made of. */
  predicate IsPrintableAscii(c: char) {
    ' ' <= c <= '~'
  }

  lemma EscapeCharPrintable(c: char)
    ensures forall i :: 0 <= i < |EscapeChar(c)| ==> IsPrintableAscii(EscapeChar(c)[i])
  {
  }

  /** The escaped text is printable ASCII only. */
  lemma {:induction false} EscapePrintable(s: string)
    ensures forall i :: 0 <= i < |Escape(s)| ==> IsPrintableAscii(Escape(s)[i])
    decreases |s|
  {
    if |s| > 0 {
      EscapeCharPrintable(s[0]);
      EscapePrintable(s[1..]);
    }
  }

  /** A character needing no escape: printable ASCII other than `"` and backslash. */
  predicate IsPlain(c: char) {
    IsPrintableAscii(c) && c != '"' && c != '\\'
  }

  /** Text made of plain characters is written unchanged. */
  lemma {:induction false} EscapePlain(s: string)
    requires forall c :: c in s ==> IsPlain(c)
    ensures Escape(s) == s
    decreases |s|
  {
    if |s| > 0 {
      assert s[0] in s;
      assert forall c :: c in s[1..] ==> c in s;
      EscapePlain(s[1..]);
    }
  }

  lemma ScanUnicodeEscape(n: int, rest: string)
    requires 0 <= n < 0x10000
    ensures var t := UnicodeEscape(n) + rest;
      |t| >= 6 && t[0] == '\\' && t[1] == 'u' && IsHex4(t[2..6]) && Hex4Value(t[2..6]) == n && t[6..] == rest
  {
    Hex4RoundTrip(n);
    var t := UnicodeEscape(n) + rest;
    assert t[2..6] == Hex4(n);
  }

  lemma SurrogateSplit(n: int)
    requires 0x10000 <= n < 0x110000
    ensures 0xD800 <= 0xD800 + (n - 0x10000) / 1024 < 0xDC00
    ensures 0xDC00 <= 0xDC00 + (n - 0x10000) % 1024 < 0xE000
    ensures 0x10000 + (0xD800 + (n - 0x10000) / 1024 - 0xD800) * 1024 + (0xDC00 + (n - 0x10000) % 1024 - 0xDC00) == n
  {
  }

  lemma ScanShort(c: char, rest: string)
    requires c == '"' || c == '\\' || c as int == 0x08 || c as int == 0x0C || c == '\n' || c == '\r' || c == '\t'
    ensures Scan(EscapeChar(c) + rest) == Cons(c, Scan(rest))
  {
    var t := EscapeChar(c) + rest;
    assert |EscapeChar(c)| == 2 && t[0] == '\\';
    assert ShortEscape(t[1]) == Some(c);
    assert t[2..] == rest;
  }

  lemma ScanBmp(c: char, rest: string)
    requires 0x20 > c as int || c as int > 0x7E
    requires c as int < 0x10000 && c as int != 0x08 && c as int != 0x0C && c != '\n' && c != '\r' && c != '\t'
    ensures Scan(EscapeChar(c) + rest) == Cons(c, Scan(rest))
  {
    var n := c as int;
    assert EscapeChar(c) == UnicodeEscape(n);
    ScanUnicodeEscape(n, rest);
  }

  lemma ScanAstral(c: char, rest: string)
    requires c as int >= 0x10000
    ensures Scan(EscapeChar(c) + rest) == Cons(c, Scan(rest))
  {
    var n := c as int;
    var hi, lo := 0xD800 + (n - 0x10000) / 1024, 0xDC00 + (n - 0x10000) % 1024;
    SurrogateSplit(n);
    assert EscapeChar(c) == UnicodeEscape(hi) + UnicodeEscape(lo);
    var t := EscapeChar(c) + rest;
    ScanUnicodeEscape(lo, rest);
    ScanUnicodeEscape(hi, UnicodeEscape(lo) + rest);
    assert t == UnicodeEscape(hi) + (UnicodeEscape(lo) + rest);
    var t6 := t[6..];
    assert t[6] == t6[0] && t[7] == t6[1] && t[8..12] == t6[2..6] && t[12..] == t6[6..];
  }

  /** The escape of a character is read back as that character, whatever follows. */
  lemma ScanEscapeChar(c: char, rest: string)
    ensures Scan(EscapeChar(c) + rest) == Cons(c, Scan(rest))
  {
    var n := c as int;
    if c == '"' || c == '\\' || n == 0x08 || n == 0x0C || c == '\n' || c == '\r' || c == '\t' {
      ScanShort(c, rest);
    } else if 0x20 <= n <= 0x7E {
      var t := EscapeChar(c) + rest;
      assert t[1..] == rest;
    } else if n < 0x10000 {
      ScanBmp(c, rest);
    } else {
      ScanAstral(c, rest);
    }
  }

  /** Scanning the escaped text and its closing quote gives the characters back and stops at the quote. */
  lemma {:induction false} ScanEscape(s: string, rest: string)
    ensures Scan(Escape(s) + "\"" + rest) == Some((s, rest))
    decreases |s|
  {
    if |s| == 0 {
      assert Escape(s) + "\"" + rest == "\"" + rest;
      assert ("\"" + rest)[1..] == rest;
    } else {
      assert Escape(s) + "\"" + rest == EscapeChar(s[0]) + (Escape(s[1..]) + "\"" + rest);
      ScanEscapeChar(s[0], Escape(s[1..]) + "\"" + rest);
      ScanEscape(s[1..], rest);
      assert [s[0]] + s[1..] == s;
    }
  }

  /** The end of an escaped string is unambiguous: the text and what follows are both determined. */
  lemma EscapeInjective(s: string, rest: string, s': string, rest': string)
    requires Escape(s) + "\"" + rest == Escape(s') + "\"" + rest'
    ensures s == s' && rest == rest'
  {
    ScanEscape(s, rest);
    ScanEscape(s', rest');
  }
}
