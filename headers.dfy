/**
 * The header dictionaries of the handler: Python dicts keep insertion order, so a
 * dictionary is the sequence of its entries. Assigning to a key that is present
 * replaces its value in place; a new key is appended.
 */
module Headers {
  import opened Wrappers

  type Dict = seq<(string, string)>

  function Keys(d: Dict): (ks: seq<string>)
    ensures |ks| == |d| && forall i :: 0 <= i < |d| ==> ks[i] == d[i].0
    decreases |d|
  {
    if |d| == 0 then [] else [d[0].0] + Keys(d[1..])
  }

  /** No key is stored twice, as in any Python dict. */
  predicate DistinctKeys(d: Dict) {
    forall i, j :: 0 <= i < j < |d| ==> d[i].0 != d[j].0
  }

  /** `d.get(k)`: the value stored under `k`, or None. */
  function Get(d: Dict, k: string): Option<string>
    decreases |d|
  {
    if |d| == 0 then None else if d[0].0 == k then Some(d[0].1) else Get(d[1..], k)
  }

  /** `d[k] = v`. */
  function Put(d: Dict, k: string, v: string): (r: Dict)
    decreases |d|
  {
    if |d| == 0 then [(k, v)]
    else if d[0].0 == k then [(k, v)] + d[1..]
    else [d[0]] + Put(d[1..], k, v)
  }

  /** `d.update(e)`: the entries of `e`, in order, assigned into `d`. */
  function Update(d: Dict, e: Dict): Dict
    decreases |e|
  {
    if |e| == 0 then d else Update(Put(d, e[0].0, e[0].1), e[1..])
  }

  /** After `d[k] = v`, `k` holds `v` and every other key holds what it held. */
  lemma {:induction false} GetPut(d: Dict, k: string, v: string, k': string)
    ensures Get(Put(d, k, v), k') == if k' == k then Some(v) else Get(d, k')
    decreases |d|
  {
    if |d| > 0 && d[0].0 != k {
      GetPut(d[1..], k, v, k');
      assert Put(d, k, v)[1..] == Put(d[1..], k, v);
    }
  }

  /** A present key keeps its place; a new key goes last. */
  lemma {:induction false} KeysPut(d: Dict, k: string, v: string)
    ensures Keys(Put(d, k, v)) == if k in Keys(d) then Keys(d) else Keys(d) + [k]
    decreases |d|
  {
    if |d| > 0 && d[0].0 != k {
      KeysPut(d[1..], k, v);
      assert Keys(d) == [d[0].0] + Keys(d[1..]);
      assert Put(d, k, v) == [d[0]] + Put(d[1..], k, v);
      assert Keys(Put(d, k, v)) == [d[0].0] + Keys(Put(d[1..], k, v));
    } else if |d| > 0 {
      assert Keys(d) == [d[0].0] + Keys(d[1..]);
    }
  }

  /** Assigning a new key appends the entry and leaves the others as they were. */
  lemma {:induction false} PutNew(d: Dict, k: string, v: string)
    requires k !in Keys(d)
    ensures Put(d, k, v) == d + [(k, v)]
    decreases |d|
  {
    if |d| > 0 {
      assert Keys(d) == [d[0].0] + Keys(d[1..]);
      PutNew(d[1..], k, v);
      assert d == [d[0]] + d[1..];
    }
  }

  /** Keys the update does not mention keep their values. */
  lemma {:induction false} GetUpdateOther(d: Dict, e: Dict, k: string)
    requires k !in Keys(e)
    ensures Get(Update(d, e), k) == Get(d, k)
    decreases |e|
  {
    if |e| > 0 {
      assert Keys(e) == [e[0].0] + Keys(e[1..]);
      GetUpdateOther(Put(d, e[0].0, e[0].1), e[1..], k);
      GetPut(d, e[0].0, e[0].1, k);
    }
  }

  /** After `d.update(e)`, the keys of `e` hold the values of `e`, the others those of `d`. */
  lemma {:induction false} GetUpdate(d: Dict, e: Dict, k: string)
    requires DistinctKeys(e)
    ensures Get(Update(d, e), k) == if k in Keys(e) then Get(e, k) else Get(d, k)
    decreases |e|
  {
    if |e| > 0 {
      assert Keys(e) == [e[0].0] + Keys(e[1..]);
      GetPut(d, e[0].0, e[0].1, k);
      if e[0].0 == k {
        assert k !in Keys(e[1..]);
        GetUpdateOther(Put(d, e[0].0, e[0].1), e[1..], k);
      } else {
        GetUpdate(Put(d, e[0].0, e[0].1), e[1..], k);
      }
    }
  }

  /** The attributes every cookie line ends with. */
  const Attributes := "; Secure; HttpOnly"

  /** The `Set-Cookie` text for one entry, as in `f"{k}={v}; Secure; HttpOnly"`. */
  function CookieLine(k: string, v: string): string {
    k + "=" + v + Attributes
  }

  /** The position of the first `c` in `s`, or None. */
  function FirstIndex(s: string, c: char): (r: Option<nat>)
    ensures r.Some? ==> r.value < |s| && s[r.value] == c && forall j :: 0 <= j < r.value ==> s[j] != c
    ensures r.None? ==> forall j :: 0 <= j < |s| ==> s[j] != c
    decreases |s|
  {
    if |s| == 0 then None
    else if s[0] == c then Some(0)
    else match FirstIndex(s[1..], c)
      case None => None
      case Some(i) => Some(i + 1)
  }

  /** Reads a cookie line back: the name ends at the first `=`, the value before the attributes. */
  function ParseCookieLine(line: string): Option<(string, string)> {
    var n := |Attributes|;
    if |line| < n || line[|line| - n..] != Attributes then None
    else
      var body := line[..|line| - n];
      match FirstIndex(body, '=')
      case None => None
      case Some(i) => Some((body[..i], body[i + 1..]))
  }

  /** A cookie line whose name holds no `=` reads back as its name and value. */
  lemma ParseCookieLineRoundTrip(k: string, v: string)
    requires '=' !in k
    ensures ParseCookieLine(CookieLine(k, v)) == Some((k, v))
  {
    assert forall i :: 0 <= i < |k| ==> k[i] in k;
    var line := CookieLine(k, v);
    var n := |Attributes|;
    assert line == (k + "=" + v) + Attributes;
    assert line[|line| - n..] == Attributes;
    var body := line[..|line| - n];
    assert body == k + "=" + v;
    assert body[|k|] == '=';
    assert body[..|k|] == k && body[|k| + 1..] == v;
  }

  /** `kv_to_cookies`: one cookie line per entry, in entry order. */
  method KvToCookies(headers: Dict) returns (cookies: seq<string>)
    ensures |cookies| == |headers|
    ensures forall i :: 0 <= i < |headers| ==> cookies[i] == CookieLine(headers[i].0, headers[i].1)
  {
    cookies := [];
    for n := 0 to |headers|
      invariant |cookies| == n
      invariant forall i :: 0 <= i < n ==> cookies[i] == CookieLine(headers[i].0, headers[i].1)
    {
      var (k, v) := headers[n];
      cookies := cookies + [CookieLine(k, v)];
    }
  }
}
