/**
 * JSON values and Python's `json.dumps` with `ensure_ascii=True` and a choice of
 * separators: the default `(", ", ": ")` or the compact `(",", ":")`. Objects keep
 * the insertion order of Python dicts.
 */
module Json {
  import Decimal
  import JsonString

  datatype Json =
    | JNull
    | JBool(b: bool)
    | JInt(n: int)
    | JStr(s: string)
    | JArr(items: seq<Json>)
    | JObj(members: seq<(string, Json)>)

  /** The `separators` argument: between items, and between a key and its value. */
  datatype Separators = Separators(item: string, key: string)

  const DefaultSeparators := Separators(", ", ": ")
  const CompactSeparators := Separators(",", ":")

  function Join(parts: seq<string>, sep: string): string
    decreases |parts|
  {
    if |parts| == 0 then "" else if |parts| == 1 then parts[0] else parts[0] + sep + Join(parts[1..], sep)
  }

  /** A string literal: the escaped characters between double quotes. */
  function Quote(s: string): string {
    "\"" + JsonString.Escape(s) + "\""
  }

  /** `json.dumps(v, separators=(sep.item, sep.key))`. */
  function Dumps(v: Json, sep: Separators): string {
    match v
    case JNull => "null"
    case JBool(b) => if b then "true" else "false"
    case JInt(n) => Decimal.FromInt(n)
    case JStr(s) => Quote(s)
    case JArr(items) =>
      "[" + Join(seq(|items|, i requires 0 <= i < |items| => Dumps(items[i], sep)), sep.item) + "]"
    case JObj(ms) =>
      "{" + Join(seq(|ms|, i requires 0 <= i < |ms| => Quote(ms[i].0) + sep.key + Dumps(ms[i].1, sep)), sep.item) + "}"
  }

  predicate IsWhitespace(c: char) {
    c == ' ' || c == '\t' || c == '\n' || c == '\r'
  }

  /** A property of every character of a string. */
  predicate Printable(s: string) {
    forall i :: 0 <= i < |s| ==> JsonString.IsPrintableAscii(s[i])
  }

  predicate NoWhitespace(s: string) {
    forall i :: 0 <= i < |s| ==> !IsWhitespace(s[i])
  }

  /** Every string inside `v`, key or value, is free of spaces. */
  predicate SpaceFree(v: Json) {
    match v
    case JStr(s) => ' ' !in s
    case JArr(items) => forall i :: 0 <= i < |items| ==> SpaceFree(items[i])
    case JObj(ms) => forall i :: 0 <= i < |ms| ==> ' ' !in ms[i].0 && SpaceFree(ms[i].1)
    case _ => true
  }

  lemma {:induction false} JoinWith(parts: seq<string>, sep: string, P: char -> bool)
    requires forall c :: c in sep ==> P(c)
    requires forall i, j :: 0 <= i < |parts| && 0 <= j < |parts[i]| ==> P(parts[i][j])
    ensures forall j :: 0 <= j < |Join(parts, sep)| ==> P(Join(parts, sep)[j])
    decreases |parts|
  {
    if |parts| > 1 {
      JoinWith(parts[1..], sep, P);
      var r := Join(parts[1..], sep);
      assert Join(parts, sep) == parts[0] + sep + r;
      forall j | 0 <= j < |parts[0] + sep + r| ensures P((parts[0] + sep + r)[j]) {
        if j < |parts[0]| {
        } else if j < |parts[0]| + |sep| {
          assert (parts[0] + sep + r)[j] == sep[j - |parts[0]|];
          assert sep[j - |parts[0]|] in sep;
        } else {
          assert (parts[0] + sep + r)[j] == r[j - |parts[0]| - |sep|];
        }
      }
    } else if |parts| == 1 {
      assert Join(parts, sep) == parts[0];
    }
  }

  lemma QuotePrintable(s: string)
    ensures Printable(Quote(s))
  {
    JsonString.EscapePrintable(s);
    var e := JsonString.Escape(s);
    assert forall i :: 0 < i <= |e| ==> Quote(s)[i] == e[i - 1];
  }

  /**
   * `ensure_ascii` output is printable ASCII throughout, whatever the value, when
   * the separators are.
   */
  lemma {:induction false} DumpsPrintable(v: Json, sep: Separators)
    requires Printable(sep.item) && Printable(sep.key)
    ensures Printable(Dumps(v, sep))
  {
    var P := (c: char) => JsonString.IsPrintableAscii(c);
    assert forall c :: c in sep.item ==> P(c);
    match v
    case JNull =>
    case JBool(b) =>
    case JInt(n) => Decimal.FromIntChars(n);
    case JStr(s) => QuotePrintable(s);
    case JArr(items) =>
      var parts := seq(|items|, i requires 0 <= i < |items| => Dumps(items[i], sep));
      forall i | 0 <= i < |items| ensures Printable(parts[i]) {
        DumpsPrintable(items[i], sep);
      }
      JoinWith(parts, sep.item, P);
      Wrap("[", Join(parts, sep.item), "]", P);
    case JObj(ms) =>
      var parts := seq(|ms|, i requires 0 <= i < |ms| => Quote(ms[i].0) + sep.key + Dumps(ms[i].1, sep));
      forall i | 0 <= i < |ms| ensures Printable(parts[i]) {
        DumpsPrintable(ms[i].1, sep);
        QuotePrintable(ms[i].0);
        Concat3(Quote(ms[i].0), sep.key, Dumps(ms[i].1, sep), P);
      }
      JoinWith(parts, sep.item, P);
      Wrap("{", Join(parts, sep.item), "}", P);
  }

  lemma Concat3(a: string, b: string, c: string, P: char -> bool)
    requires forall i :: 0 <= i < |a| ==> P(a[i])
    requires forall i :: 0 <= i < |b| ==> P(b[i])
    requires forall i :: 0 <= i < |c| ==> P(c[i])
    ensures forall i :: 0 <= i < |a + b + c| ==> P((a + b + c)[i])
  {
    forall i | 0 <= i < |a + b + c| ensures P((a + b + c)[i]) {
      if i < |a| {
      } else if i < |a| + |b| {
        assert (a + b + c)[i] == b[i - |a|];
      } else {
        assert (a + b + c)[i] == c[i - |a| - |b|];
      }
    }
  }

  lemma Wrap(open: string, body: string, close: string, P: char -> bool)
    requires |open| == 1 && |close| == 1 && P(open[0]) && P(close[0])
    requires forall i :: 0 <= i < |body| ==> P(body[i])
    ensures forall i :: 0 <= i < |open + body + close| ==> P((open + body + close)[i])
  {
    Concat3(open, body, close, P);
  }

  lemma EscapeCharNoWhitespace(c: char)
    requires c != ' '
    ensures NoWhitespace(JsonString.EscapeChar(c))
  {
  }

  /** Escaping keeps a space-free string free of all JSON whitespace. */
  lemma {:induction false} EscapeNoWhitespace(s: string)
    requires ' ' !in s
    ensures NoWhitespace(JsonString.Escape(s))
    decreases |s|
  {
    if |s| > 0 {
      assert s[0] in s;
      assert forall c :: c in s[1..] ==> c in s;
      EscapeNoWhitespace(s[1..]);
      var h, t := JsonString.EscapeChar(s[0]), JsonString.Escape(s[1..]);
      EscapeCharNoWhitespace(s[0]);
      Concat3(h, t, "", (c: char) => !IsWhitespace(c));
      assert h + t + "" == JsonString.Escape(s);
    }
  }

  /** With the compact separators, a space-free value is written without any whitespace. */
  lemma {:induction false} CompactNoWhitespace(v: Json)
    requires SpaceFree(v)
    ensures NoWhitespace(Dumps(v, CompactSeparators))
  {
    var sep := CompactSeparators;
    var P := (c: char) => !IsWhitespace(c);
    assert forall c :: c in sep.item ==> P(c);
    match v
    case JNull =>
    case JBool(b) =>
    case JInt(n) => Decimal.FromIntChars(n);
    case JStr(s) =>
      EscapeNoWhitespace(s);
      Concat3("\"", JsonString.Escape(s), "\"", P);
    case JArr(items) =>
      var parts := seq(|items|, i requires 0 <= i < |items| => Dumps(items[i], sep));
      forall i | 0 <= i < |items| ensures NoWhitespace(parts[i]) {
        CompactNoWhitespace(items[i]);
      }
      JoinWith(parts, sep.item, P);
      Wrap("[", Join(parts, sep.item), "]", P);
    case JObj(ms) =>
      var parts := seq(|ms|, i requires 0 <= i < |ms| => Quote(ms[i].0) + sep.key + Dumps(ms[i].1, sep));
      forall i | 0 <= i < |ms| ensures NoWhitespace(parts[i]) {
        CompactNoWhitespace(ms[i].1);
        EscapeNoWhitespace(ms[i].0);
        Concat3("\"", JsonString.Escape(ms[i].0), "\"", P);
        Concat3(Quote(ms[i].0), sep.key, Dumps(ms[i].1, sep), P);
      }
      JoinWith(parts, sep.item, P);
      Wrap("{", Join(parts, sep.item), "}", P);
  }

  /** An object with one member. */
  lemma DumpsOneMember(k: string, v: Json, sep: Separators)
    ensures Dumps(JObj([(k, v)]), sep) == "{" + Quote(k) + sep.key + Dumps(v, sep) + "}"
  {
    var parts := seq(1, i requires 0 <= i < 1 => Quote(k) + sep.key + Dumps(v, sep));
    assert Join(parts, sep.item) == parts[0];
  }

  /** An object with two members, in insertion order. */
  lemma DumpsTwoMembers(k1: string, v1: Json, k2: string, v2: Json, sep: Separators)
    ensures Dumps(JObj([(k1, v1), (k2, v2)]), sep)
         == "{" + (Quote(k1) + sep.key + Dumps(v1, sep)) + sep.item + (Quote(k2) + sep.key + Dumps(v2, sep)) + "}"
  {
    var ms := [(k1, v1), (k2, v2)];
    var parts := seq(2, i requires 0 <= i < 2 => Quote(ms[i].0) + sep.key + Dumps(ms[i].1, sep));
    assert Join(parts[1..], sep.item) == parts[1];
  }

  /** An array with one item. */
  lemma DumpsOneItem(v: Json, sep: Separators)
    ensures Dumps(JArr([v]), sep) == "[" + Dumps(v, sep) + "]"
  {
    var parts := seq(1, i requires 0 <= i < 1 => Dumps(v, sep));
    assert Join(parts, sep.item) == parts[0];
  }

  /** A key made of plain characters is quoted without escapes. */
  lemma QuotePlain(k: string)
    requires forall c :: c in k ==> JsonString.IsPlain(c)
    ensures Quote(k) == "\"" + k + "\""
  {
    JsonString.EscapePlain(k);
  }
}
