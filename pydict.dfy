/** A Python `dict` with string keys, as an insertion-ordered list of entries.
    Iteration order (`for k in d`, `d.items()`) is the list order; assigning an
    existing key keeps its position, assigning a new key appends it, and `del`
    removes the entry without reordering the others. */
module PyDict {
  import opened Common

  type Dict<V> = seq<(string, V)>

  /** No key occurs twice: every dict Python can build satisfies this. */
  predicate DistinctKeys<V>(d: Dict<V>)
  {
    forall i, j | 0 <= i < j < |d| :: d[i].0 != d[j].0
  }

  function Keys<V>(d: Dict<V>): set<string>
  {
    set i | 0 <= i < |d| :: d[i].0
  }

  lemma KeysCons<V>(e: (string, V), t: Dict<V>)
    ensures Keys([e] + t) == {e.0} + Keys(t)
  {
    var s := [e] + t;
    forall x | x in Keys(s) ensures x in {e.0} + Keys(t) {
      var i :| 0 <= i < |s| && s[i].0 == x;
      if i > 0 { assert t[i - 1].0 == x; }
    }
    forall x | x in Keys(t) ensures x in Keys(s) {
      var i :| 0 <= i < |t| && t[i].0 == x;
      assert s[i + 1].0 == x;
    }
    assert s[0].0 == e.0;
  }

  /** `d.get(k)` */
  function Get<V>(d: Dict<V>, k: string): (r: Option<V>)
    ensures r.Some? <==> k in Keys(d)
  {
    if d == [] then None
    else if d[0].0 == k then Some(d[0].1)
    else
      assert d == [d[0]] + d[1..];
      KeysCons(d[0], d[1..]);
      Get(d[1..], k)
  }

  /** `d[k] = v`: overwrite in place, or append a new entry. */
  function Put<V>(d: Dict<V>, k: string, v: V): (r: Dict<V>)
    ensures Keys(r) == Keys(d) + {k}
    ensures Get(r, k) == Some(v)
    ensures forall j | j != k :: Get(r, j) == Get(d, j)
    ensures DistinctKeys(d) ==> DistinctKeys(r)
  {
    if d == [] then
      assert [(k, v)] == [(k, v)] + d;
      KeysCons((k, v), d);
      [(k, v)]
    else if d[0].0 == k then
      assert d == [d[0]] + d[1..];
      KeysCons(d[0], d[1..]);
      KeysCons((k, v), d[1..]);
      [(k, v)] + d[1..]
    else
      var t := Put(d[1..], k, v);
      assert d == [d[0]] + d[1..];
      KeysCons(d[0], d[1..]);
      KeysCons(d[0], t);
      assert DistinctKeys(d) ==> d[0].0 !in Keys(d[1..]);
      [d[0]] + t
  }

  /** Assigning a new key appends its entry at the end. */
  lemma {:induction false} PutAppends<V>(d: Dict<V>, k: string, v: V)
    requires k !in Keys(d)
    ensures Put(d, k, v) == d + [(k, v)]
  {
    if d != [] {
      assert d == [d[0]] + d[1..];
      KeysCons(d[0], d[1..]);
      PutAppends(d[1..], k, v);
    }
  }

  /** `del d[k]` on a key of the dict (the first entry with that key goes). */
  function Delete<V>(d: Dict<V>, k: string): (r: Dict<V>)
    ensures forall j | j != k :: Get(r, j) == Get(d, j)
    ensures DistinctKeys(d) ==> DistinctKeys(r) && Keys(r) == Keys(d) - {k} && Get(r, k) == None
  {
    if d == [] then []
    else if d[0].0 == k then
      assert d == [d[0]] + d[1..];
      KeysCons(d[0], d[1..]);
      assert DistinctKeys(d) ==> k !in Keys(d[1..]);
      d[1..]
    else
      var t := Delete(d[1..], k);
      assert d == [d[0]] + d[1..];
      KeysCons(d[0], d[1..]);
      KeysCons(d[0], t);
      [d[0]] + t
  }

  /** The entries' keys, in iteration order. */
  function KeyList<V>(d: Dict<V>): (ks: seq<string>)
    ensures |ks| == |d| && forall i | 0 <= i < |d| :: ks[i] == d[i].0
  {
    seq(|d|, i requires 0 <= i < |d| => d[i].0)
  }
}
