/**
 * Decimal text of an integer, as Python's `json.dumps` writes an `int` (through
 * `int.__repr__`): an optional `-`, then digits without leading zeros. The parser
 * accepts exactly the integer grammar of JSON (section 6 of RFC 8259, no fraction,
 * no exponent) and is the reference inverse.
 */
module Decimal {
  import opened Wrappers

  predicate IsDigit(c: char) {
    '0' <= c <= '9'
  }

  function DigitChar(d: int): (c: char)
    requires 0 <= d < 10
  {
    ('0' as int + d) as char
  }

  /** The digits of a natural number, most significant first. */
  function Digits(n: nat): (s: string)
    decreases n
  {
    if n < 10 then [DigitChar(n)] else Digits(n / 10) + [DigitChar(n % 10)]
  }

  /** `json.dumps` of an integer. */
  function FromInt(n: int): string {
    if n < 0 then "-" + Digits(-n) else Digits(n)
  }

  /** The value of a non-empty string of digits. */
  function DigitsValue(s: string): nat
    requires forall i :: 0 <= i < |s| ==> IsDigit(s[i])
    decreases |s|
  {
    if |s| == 0 then 0
    else
      assert IsDigit(s[|s| - 1]);
      DigitsValue(s[..|s| - 1]) * 10 + (s[|s| - 1] as int - '0' as int)
  }

  predicate AllDigits(s: string) {
    forall i :: 0 <= i < |s| ==> IsDigit(s[i])
  }

  /** Canonical digits: at least one, and no leading zero unless the number is 0. */
  predicate Canonical(s: string) {
    |s| > 0 && AllDigits(s) && (s[0] == '0' ==> |s| == 1)
  }

  /** A JSON integer: `-`? then canonical digits. */
  function ToInt(s: string): Option<int> {
    if |s| > 0 && s[0] == '-' then
      if Canonical(s[1..]) && s[1..] != "0" then Some(0 - DigitsValue(s[1..]) as int) else None
    else if Canonical(s) then Some(DigitsValue(s))
    else None
  }

  /** The digits of `n` are canonical and read back as `n`. */
  lemma {:induction false} DigitsRoundTrip(n: nat)
    ensures Canonical(Digits(n)) && DigitsValue(Digits(n)) == n
    decreases n
  {
    if n >= 10 {
      DigitsRoundTrip(n / 10);
      var s := Digits(n);
      assert s[..|s| - 1] == Digits(n / 10);
      assert s[0] == Digits(n / 10)[0];
    }
  }

  /** Parsing the text of an integer gives the integer back. */
  lemma FromIntRoundTrip(n: int)
    ensures ToInt(FromInt(n)) == Some(n)
  {
    if n < 0 {
      DigitsRoundTrip(-n);
      assert FromInt(n)[1..] == Digits(-n);
    } else {
      DigitsRoundTrip(n);
    }
  }

  /** The text is a `-` followed by digits, or digits alone: no space, no sign `+`. */
  lemma FromIntChars(n: int)
    ensures |FromInt(n)| > 0 && (FromInt(n)[0] == '-' <==> n < 0)
    ensures forall i :: 0 <= i < |FromInt(n)| ==> IsDigit(FromInt(n)[i]) || (i == 0 && n < 0 && FromInt(n)[i] == '-')
  {
    if n < 0 {
      DigitsRoundTrip(-n);
      assert FromInt(n)[0] == '-';
    } else {
      DigitsRoundTrip(n);
      var s := Digits(n);
      assert |s| > 0 && IsDigit(s[0]);
    }
  }
}
