/**
 * Standard padded base64 (section 4 of RFC 4648), as Python's `base64.b64encode`
 * produces it, and a strict decoder for the same alphabet that serves as its
 * reference inverse.
 */
module Base64 {
  import opened Wrappers
  import opened Bytes

  /** The character of the base64 alphabet for a 6-bit value. */
  function Digit(v: int): (c: char)
    requires 0 <= v < 64
  {
    if v < 26 then ('A' as int + v) as char
    else if v < 52 then ('a' as int + (v - 26)) as char
    else if v < 62 then ('0' as int + (v - 52)) as char
    else if v == 62 then '+'
    else '/'
  }

  /** The 64 characters of the alphabet (the pad `=` is not one of them). */
  predicate IsDigit(c: char) {
    ('A' <= c <= 'Z') || ('a' <= c <= 'z') || ('0' <= c <= '9') || c == '+' || c == '/'
  }

  /** The 6-bit value a character of the alphabet stands for. */
  function DigitValue(c: char): (v: int)
    requires IsDigit(c)
    ensures 0 <= v < 64 && Digit(v) == c
  {
    if 'A' <= c <= 'Z' then c as int - 'A' as int
    else if 'a' <= c <= 'z' then c as int - 'a' as int + 26
    else if '0' <= c <= '9' then c as int - '0' as int + 52
    else if c == '+' then 62
    else 63
  }

  lemma DigitRoundTrip(v: int)
    requires 0 <= v < 64
    ensures IsDigit(Digit(v)) && DigitValue(Digit(v)) == v
  {
  }

  /** Four characters for three bytes. */
  function EncodeBlock(b0: byte, b1: byte, b2: byte): string {
    [Digit(b0 / 4), Digit(b0 % 4 * 16 + b1 / 16), Digit(b1 % 16 * 4 + b2 / 64), Digit(b2 % 64)]
  }

  /** Base64 of a byte string: whole 3-byte groups first, then a padded final group. */
  function Encode(b: seq<byte>): string
    decreases |b|
  {
    if |b| == 0 then []
    else if |b| == 1 then [Digit(b[0] / 4), Digit(b[0] % 4 * 16), '=', '=']
    else if |b| == 2 then [Digit(b[0] / 4), Digit(b[0] % 4 * 16 + b[1] / 16), Digit(b[1] % 16 * 4), '=']
    else EncodeBlock(b[0], b[1], b[2]) + Encode(b[3..])
  }

  /** Three bytes from four characters of the alphabet, or None. */
  function DecodeBlock(c0: char, c1: char, c2: char, c3: char): Option<seq<byte>> {
    if IsDigit(c0) && IsDigit(c1) && IsDigit(c2) && IsDigit(c3) then
      var v0, v1, v2, v3 := DigitValue(c0), DigitValue(c1), DigitValue(c2), DigitValue(c3);
      Some([v0 * 4 + v1 / 16, v1 % 16 * 16 + v2 / 4, v2 % 4 * 64 + v3])
    else None
  }

  /** The last group of four, which may carry one or two `=` pads. */
  function DecodeFinal(c0: char, c1: char, c2: char, c3: char): Option<seq<byte>> {
    if c2 == '=' && c3 == '=' then
      if IsDigit(c0) && IsDigit(c1) then Some([DigitValue(c0) * 4 + DigitValue(c1) / 16])
      else None
    else if c3 == '=' then
      if IsDigit(c0) && IsDigit(c1) && IsDigit(c2) then
        var v0, v1, v2 := DigitValue(c0), DigitValue(c1), DigitValue(c2);
        Some([v0 * 4 + v1 / 16, v1 % 16 * 16 + v2 / 4])
      else None
    else DecodeBlock(c0, c1, c2, c3)
  }

  /**
   * Strict decoding: the length is a multiple of four, every character is in the
   * alphabet, and `=` appears only as the padding of the last group.
   */
  function Decode(s: string): Option<seq<byte>>
    decreases |s|
  {
    if |s| == 0 then Some([])
    else if |s| < 4 then None
    else if |s| == 4 then DecodeFinal(s[0], s[1], s[2], s[3])
    else
      match DecodeBlock(s[0], s[1], s[2], s[3])
      case None => None
      case Some(head) =>
        match Decode(s[4..])
        case None => None
        case Some(tail) => Some(head + tail)
  }

  /** Every character of the output is in the alphabet or is the pad `=`. */
  lemma {:induction false} EncodeAlphabet(b: seq<byte>)
    ensures forall i :: 0 <= i < |Encode(b)| ==> IsDigit(Encode(b)[i]) || Encode(b)[i] == '='
    decreases |b|
  {
    if |b| >= 3 {
      EncodeAlphabet(b[3..]);
      assert Encode(b) == EncodeBlock(b[0], b[1], b[2]) + Encode(b[3..]);
    }
  }

  /** The output is four characters for every started group of three bytes. */
  lemma {:induction false} EncodeLength(b: seq<byte>)
    ensures |Encode(b)| == 4 * ((|b| + 2) / 3)
    decreases |b|
  {
    if |b| >= 3 {
      EncodeLength(b[3..]);
      assert Encode(b) == EncodeBlock(b[0], b[1], b[2]) + Encode(b[3..]);
      assert (|b| + 2) / 3 == (|b[3..]| + 2) / 3 + 1;
    }
  }

  /** The four six-bit groups of three bytes put back together give the bytes. */
  lemma Regroup(b0: byte, b1: byte, b2: byte)
    ensures var v0, v1, v2, v3 := b0 / 4, b0 % 4 * 16 + b1 / 16, b1 % 16 * 4 + b2 / 64, b2 % 64;
      v0 * 4 + v1 / 16 == b0 && v1 % 16 * 16 + v2 / 4 == b1 && v2 % 4 * 64 + v3 == b2
  {
    var v1, v2 := b0 % 4 * 16 + b1 / 16, b1 % 16 * 4 + b2 / 64;
    assert v1 / 16 == b0 % 4 && v1 % 16 == b1 / 16;
    assert v2 / 4 == b1 % 16 && v2 % 4 == b2 / 64;
  }

  lemma BlockRoundTrip(b0: byte, b1: byte, b2: byte)
    ensures var s := EncodeBlock(b0, b1, b2); DecodeBlock(s[0], s[1], s[2], s[3]) == Some([b0, b1, b2])
  {
    var v0, v1, v2, v3 := b0 / 4, b0 % 4 * 16 + b1 / 16, b1 % 16 * 4 + b2 / 64, b2 % 64;
    DigitRoundTrip(v0);
    DigitRoundTrip(v1);
    DigitRoundTrip(v2);
    DigitRoundTrip(v3);
    Regroup(b0, b1, b2);
    var s := EncodeBlock(b0, b1, b2);
    assert s == [Digit(v0), Digit(v1), Digit(v2), Digit(v3)];
  }

  lemma PairRoundTrip(b0: byte, b1: byte)
    ensures DecodeFinal(Digit(b0 / 4), Digit(b0 % 4 * 16 + b1 / 16), Digit(b1 % 16 * 4), '=') == Some([b0, b1])
  {
    var v1 := b0 % 4 * 16 + b1 / 16;
    DigitRoundTrip(b0 / 4);
    DigitRoundTrip(v1);
    DigitRoundTrip(b1 % 16 * 4);
    assert v1 / 16 == b0 % 4 && v1 % 16 == b1 / 16;
    assert b1 % 16 * 4 / 4 == b1 % 16;
  }

  lemma SingleRoundTrip(b0: byte)
    ensures DecodeFinal(Digit(b0 / 4), Digit(b0 % 4 * 16), '=', '=') == Some([b0])
  {
    DigitRoundTrip(b0 / 4);
    DigitRoundTrip(b0 % 4 * 16);
  }

  /** A full group followed by more groups decodes group by group. */
  lemma DecodeAppend(q: string, t: string, head: seq<byte>, tail: seq<byte>)
    requires |q| == 4 && |t| > 0
    requires DecodeBlock(q[0], q[1], q[2], q[3]) == Some(head) && Decode(t) == Some(tail)
    ensures Decode(q + t) == Some(head + tail)
  {
    var s := q + t;
    assert s[0] == q[0] && s[1] == q[1] && s[2] == q[2] && s[3] == q[3];
    assert s[4..] == t;
  }

  /** A final group with no padding decodes as a full group. */
  lemma DecodeLastBlock(q: string)
    requires |q| == 4 && q[3] != '='
    ensures Decode(q) == DecodeBlock(q[0], q[1], q[2], q[3])
  {
  }

  /** Decoding the output recovers the input bytes. */
  lemma {:induction false} DecodeEncode(b: seq<byte>)
    ensures Decode(Encode(b)) == Some(b)
    decreases |b|
  {
    if |b| == 1 {
      SingleRoundTrip(b[0]);
      assert [b[0]] == b;
    } else if |b| == 2 {
      PairRoundTrip(b[0], b[1]);
      assert [b[0], b[1]] == b;
    } else if |b| >= 3 {
      var head := EncodeBlock(b[0], b[1], b[2]);
      BlockRoundTrip(b[0], b[1], b[2]);
      DigitRoundTrip(b[2] % 64);
      assert b == [b[0], b[1], b[2]] + b[3..];
      if |b| == 3 {
        assert b[3..] == [];
        assert Encode(b) == head + [];
        assert head[3] == Digit(b[2] % 64);
        DecodeLastBlock(head);
        assert Decode(head) == Some([b[0], b[1], b[2]]);
        assert b == [b[0], b[1], b[2]];
      } else {
        EncodeLength(b[3..]);
        DecodeEncode(b[3..]);
        DecodeAppend(head, Encode(b[3..]), [b[0], b[1], b[2]], b[3..]);
      }
    }
  }
}
