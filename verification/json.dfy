/** The value `json.loads` hands back for an LLM reply, and the insertion-ordered
    dictionaries the scraper builds (selector sets, scraped rows). A Python dict
    is a sequence of (key, value) pairs with distinct keys, in insertion order. */
module Json {
  import opened Maybe

  /** A parsed JSON value. Numbers are integers here; Python floats are left out. */
  datatype Value =
    | Null
    | Bool(b: bool)
    | Num(n: int)
    | Str(s: string)
    | Arr(items: seq<Value>)
    | Obj(fields: seq<(string, Value)>)

  /** Python truthiness: `None`, `False`, `0`, `""`, `[]` and `{}` are false. */
  predicate Truthy(v: Value) {
    match v
    case Null => false
    case Bool(b) => b
    case Num(n) => n != 0
    case Str(s) => s != ""
    case Arr(items) => |items| > 0
    case Obj(fields) => |fields| > 0
  }

  type Dict<V> = seq<(string, V)>

  /** `list(d.keys())`: the keys in insertion order. */
  function Keys<V>(d: Dict<V>): (ks: seq<string>)
    ensures |ks| == |d|
    ensures forall i :: 0 <= i < |d| ==> ks[i] == d[i].0
  {
    seq(|d|, i requires 0 <= i < |d| => d[i].0)
  }

  /** The representation invariant of a Python dict. */
  predicate DistinctKeys<V>(d: Dict<V>) {
    forall i, j :: 0 <= i < j < |d| ==> d[i].0 != d[j].0
  }

  /** `d.get(k)`. */
  function Lookup<V>(d: Dict<V>, k: string): (r: Option<V>)
    ensures r.None? <==> k !in Keys(d)
    ensures r.Some? ==> exists i :: 0 <= i < |d| && d[i] == (k, r.value)
  {
    if |d| == 0 then None
    else if d[0].0 == k then Some(d[0].1)
    else
      assert Keys(d) == [d[0].0] + Keys(d[1..]);
      var r := Lookup(d[1..], k);
      assert r.Some? ==> exists i :: 0 <= i < |d| && d[i] == (k, r.value) by {
        if r.Some? {
          var i :| 0 <= i < |d[1..]| && d[1..][i] == (k, r.value);
          assert d[i + 1] == (k, r.value);
        }
      }
      r
  }

  /** The key holds a string. */
  predicate HasStr(d: Dict<Value>, k: string) {
    Lookup(d, k).Some? && Lookup(d, k).value.Str?
  }

  /** The string under `k`, as `d[k]` reads it. */
  function Field(d: Dict<Value>, k: string): string
    requires HasStr(d, k)
  {
    Lookup(d, k).value.s
  }

  /** In a dict, the value stored at any position is what `get` finds for its key. */
  lemma {:induction false} LookupAt<V>(d: Dict<V>, i: nat)
    requires DistinctKeys(d) && i < |d|
    ensures Lookup(d, d[i].0) == Some(d[i].1)
  {
    if i > 0 {
      assert DistinctKeys(d[1..]);
      LookupAt(d[1..], i - 1);
    }
  }

  /** The position of a key in a dict. */
  function IndexOf<V>(d: Dict<V>, k: string): (i: nat)
    requires k in Keys(d)
    ensures i < |d| && d[i].0 == k
    ensures forall j :: 0 <= j < i ==> d[j].0 != k
  {
    if d[0].0 == k then 0
    else
      assert k in Keys(d[1..]) by {
        var j :| 0 <= j < |d| && Keys(d)[j] == k;
        assert Keys(d[1..])[j - 1] == k;
      }
      var i := IndexOf(d[1..], k);
      assert forall j :: 1 <= j <= i ==> d[j] == d[1..][j - 1];
      1 + i
  }

  /** `d[k] = v`: an existing key keeps its position, a new key goes last. */
  function Put<V>(d: Dict<V>, k: string, v: V): (r: Dict<V>)
    requires DistinctKeys(d)
    ensures DistinctKeys(r)
    ensures Keys(r) == if k in Keys(d) then Keys(d) else Keys(d) + [k]
    ensures Lookup(r, k) == Some(v)
    ensures forall k' :: k' != k ==> Lookup(r, k') == Lookup(d, k')
  {
    var r := if k in Keys(d) then d[IndexOf(d, k) := (k, v)] else d + [(k, v)];
    assert Keys(r) == if k in Keys(d) then Keys(d) else Keys(d) + [k];
    assert DistinctKeys(r);
    forall k' ensures Lookup(r, k') == (if k' == k then Some(v) else Lookup(d, k')) {
      if k' in Keys(r) {
        var j := IndexOf(r, k');
        LookupAt(r, j);
        if k' != k {
          assert j < |d| && d[j] == r[j];
          LookupAt(d, j);
        }
      }
    }
    r
  }

  /** Two dicts with the same key sequence and the same `get` everywhere are equal. */
  lemma {:induction false} DictExtensional<V>(a: Dict<V>, b: Dict<V>)
    requires DistinctKeys(a) && DistinctKeys(b)
    requires Keys(a) == Keys(b)
    requires forall k :: Lookup(a, k) == Lookup(b, k)
    ensures a == b
  {
    assert |a| == |b|;
    forall i | 0 <= i < |a| ensures a[i] == b[i] {
      assert a[i].0 == b[i].0;
      LookupAt(a, i);
      LookupAt(b, i);
    }
  }
}
